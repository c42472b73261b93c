# Verified model of mipsevm and its preimage channel

A Dafny model of the MIPS emulator that produces single-step witnesses for a fault-proof
game, with proofs of what its memory, its step function and its wire protocol promise.

- **Memory.** A 32-bit address space kept as 4 KiB pages under a Merkle tree with three layers
  of caches. `PagedMemory.Memory` and `Pages.CachedPage` are classes that update pages, bitmaps
  and node maps in place. The ghost field `contents` is the flat 2^32-byte memory, and every
  method is proved to answer as that flat memory and its from-scratch tree hash would. The
  invariant that carries this is `UpperTree.NodesCorrect`: a page whose root is invalid has no
  cached ancestor.
- **Machine.** `Cpu.Instruction` is one instruction on values, `Machine.MachineStep` a whole step.
  `Vm.InstrumentedState` is the machine with its registers, memory, logs and proof buffers updated
  in place; each of its handlers is proved to compute that specification, with and without proofs.
- **Instruction set.** What the machine does with each instruction word is also stated without the
  functions it is built from: `Assembly` encodes instruction words from their fields, and
  `ControlLaws`, `RegisterLaws`, `HiLoLaws`, `MemoryLaws` and `SyscallLaws` give the whole machine
  after a step as integers, bytes and registers, instruction by instruction and call by call.
- **Witness.** `Replay.ReplayStep` recomputes a step from the 226-byte state, two Merkle proofs and
  the preimage alone. The central theorem, `Replay.WitnessSufficient`, says that the witness a
  step emits replays to exactly the witness of the state after it; `ReplayRuns.ChainSound` is the
  converse for arbitrary proofs, up to hash collisions.
- **Protocols.** `OracleProtocol` and `HintProtocol` are state machines over a pair of byte channels
  with arbitrary interleaving; `OracleEndpoints` is the same channel as loops of partial transfers.

The modules follow the source: `Pages` (page.rs), `UpperTree`, `PagedMemory`, `MemoryReaders`,
`RangeLoading`, `Persistence` (memory.rs), `Segments` (patch.rs), `Instrumented` and `Witness`
(state.rs), `Alu`, `Cpu`, `Machine` and `Vm` (mips_vm.rs, instrumented.rs), `OracleProtocol`,
`OracleEndpoints` and `HintProtocol` (oracle.rs, hints.rs). `MerkleTree`, `MemoryProofs`, `Replay`,
`ReplayRuns`, `Interleavings`, `CacheFailures`, `ArithmeticLaws`, `NarrowAccess`, `Unaligned`, `Assembly`,
the five law modules, `Runs`, `VmRuns`, `Heap`, `Streaming` and `HintBuffers` hold the theorems. Machine words are integers bounded by 2^32 with every
wrap-around, truncation and masked shift written out. Keccak-256 is an uninterpreted function.
A Rust panic is an error outcome.

Properties one would expect that the code does not have, each with its exact condition:

- `sra` and `srav` are arithmetic shifts if and only if the amount is nonzero modulo 32 or the
  operand is zero (`ArithmeticLaws.SraExact`, `ArithmeticLaws.SraByZeroFails`).
- A step's witness omits the preimage when it is read at offset 2^32 - 1, the value that stands
  for "nothing read"; witness sufficiency holds if and only if this is not the case, and such a
  step exists (`Replay.WitnessSufficient`, `Replay.ReservedReadUnreplayable`).
- The hint loop delivers the complete hints of its buffer if and only if the first hint ends
  exactly at the end of the buffer or there is no length yet (`HintBuffers.HintLoopExact`).
- Bulk loading keeps the memory consistent if and only if every cached ancestor of a touched page
  is also an ancestor of a touched page that did not exist before, whose allocation clears it
  (`RangeLoading.SetMemoryRange`; for one page `RangeLoading.PreparePage`). Where this fails, the
  memory goes on returning an outdated root (`CacheFailures.LoadUnderCachedRoot`).
- Reallocating an existing page keeps the memory consistent if and only if the page is not in the
  lookup cache (`PagedMemory.Memory.AllocPage`). Where it is, reads still return the bytes of the
  replaced page (`CacheFailures.ReadReplacedPage`).
- A memory reader panics if and only if its range wraps around into the page it starts in
  (`MemoryReaders.MemoryReader.Read`).
- The 32-bit range check of the segment loader holds a segment inside the address space if and
  only if the 64-bit end address does not wrap (`Segments.GuardExact`, `Segments.GuardMissesWrap`).

## Model

| member | source | states |
|---|---|---|
| MerkleTree.ZeroHashTable | crates/mipsevm/src/page.rs:19-25 | entry i of the doubling table is the root of the all-zero tree of height i |
| MerkleTree.NodeFrame | crates/mipsevm/src/page.rs:58-60 | a subtree hash depends on the leaves below it and on nothing else, for trees of any size |
| MerkleTree.ZeroNode | crates/mipsevm/src/memory.rs:127-146 | an all-zero subtree has the zero hash of its height, at every generalized index |
| MerkleTree.FoldSiblings | crates/mipsevm/src/memory.rs:193-220 | folding any node with the siblings above it gives the node at the top of the path |
| MerkleTree.StatelessUpdate | crates/mipsevm/src/memory.rs:173-220 | when one leaf changes, its old siblings folded with the new leaf give the new root |
| MerkleTree.FoldBinding | crates/mipsevm/src/memory.rs:497-517 | two foldings of one path to one root agree on leaf and siblings unless two hashed strings collide |
| Pages.PrefixCoversPath | crates/mipsevm/src/page.rs:72-76 | every cached node over an address has an index in the cleared prefix |
| Pages.CacheSurvivesWrite | crates/mipsevm/src/page.rs:67-79 | once the prefix is cleared, bytes of that 64-byte block may change and all remaining valid entries stay true |
| Pages.BottomLayer | crates/mipsevm/src/page.rs:120-134 | hashing 64 raw bytes is combining the two 32-byte leaves they consist of |
| Pages.CachedPage.constructor | crates/mipsevm/src/page.rs:48-56 | a default page is zero, and its all-valid cache holds the true hashes of a zero page |
| Pages.CachedPage.DefaultCache | crates/mipsevm/src/page.rs:28-36 | hashing one zero page fills the whole table of default entries correctly |
| Pages.CachedPage.Invalidate | crates/mipsevm/src/page.rs:67-79 | exactly the entries up to the bottom node over the address are cleared; an address past the page is the only error |
| Pages.CachedPage.InvalidateFull | crates/mipsevm/src/page.rs:85-87 | nothing is valid afterwards, and the cache invariant holds whatever the data |
| Pages.CachedPage.MerkleizeSubtree | crates/mipsevm/src/page.rs:107-149 | returns the from-scratch hash of the subtree, never loses a valid entry, leaves the node cached, keeps every valid entry true; index 0 yields the unused entry while that is marked valid |
| Pages.CachedPage.MerkleRoot | crates/mipsevm/src/page.rs:94-96 | the page root equals the from-scratch hash of its 128 leaves |
| UpperTree.ClearForStale | crates/mipsevm/src/memory.rs:66-91 | after invalidating a page's path, the page may lose its root: no stale page has a cached ancestor |
| UpperTree.ClearForNew | crates/mipsevm/src/memory.rs:296-306 | the same for a newly allocated page, whose ancestors all get an entry |
| UpperTree.NodesAfterAlloc | crates/mipsevm/src/memory.rs:296-306 | allocating any index, also one beyond the address space, keeps the node invariant |
| UpperTree.NodesSurviveWrite | crates/mipsevm/src/memory.rs:66-77 | the bytes of a stale page may change without any cached node becoming wrong, which justifies the early exit |
| UpperTree.AbsentNode | crates/mipsevm/src/memory.rs:143-146 | a node without an entry covers no page, so the zero hash of its height is its true hash |
| UpperTree.PageSubtree | crates/mipsevm/src/memory.rs:126-137 | a node below page level is the corresponding node of the page that the index split selects |
| UpperTree.PathStep | crates/mipsevm/src/memory.rs:209-213 | each level down the path of an address appends its next bit, highest first |
| PagedMemory.Memory.constructor | crates/mipsevm/src/memory.rs:26-34 | a new memory is all zero |
| PagedMemory.Memory.PageLookup | crates/mipsevm/src/memory.rs:104-117 | the page that the first matching slot or the map gives; on a consistent memory that is the page of the map, and the two-entry cache goes on aliasing the map |
| PagedMemory.Memory.AllocPage | crates/mipsevm/src/memory.rs:296-306 | for any index, a page of zeros with its path invalidated; contents stay the same when it is new and become zero there when it is not; the lookup cache stays in order exactly when it does not hold the page |
| PagedMemory.Memory.MarkPage | crates/mipsevm/src/memory.rs:72-73 | the page becomes stale, its prefix is cleared, and no byte or other page changes |
| PagedMemory.Memory.Invalidate | crates/mipsevm/src/memory.rs:59-94 | keeps the memory invariant through the early exit as well as the full walk; panics exactly on unaligned addresses |
| PagedMemory.Memory.SetMemory | crates/mipsevm/src/memory.rs:232-262 | the contents change by exactly the four bytes of the word, and not at all on the alignment error; all caches stay consistent |
| PagedMemory.Memory.GetMemory | crates/mipsevm/src/memory.rs:272-287 | returns the big-endian word of the flat memory, zero on absent pages, or the alignment error; on any memory, the word in the page that the lookup finds |
| PagedMemory.Memory.MerkleizeSubtree | crates/mipsevm/src/memory.rs:119-156 | returns the from-scratch hash at any generalized index, with the depth error exactly past the leaves; caches stay correct and no page below stays stale; a cached node is returned as it is on any memory |
| PagedMemory.Memory.MerkleizeUpper | crates/mipsevm/src/memory.rs:143-155 | absent, cached and invalid nodes all yield the true hash, and the recomputed one may be cached |
| PagedMemory.Memory.MerkleizeInPage | crates/mipsevm/src/memory.rs:126-135 | nodes inside pages yield the true hash, missing pages as zero trees |
| PagedMemory.Memory.MerkleRoot | crates/mipsevm/src/memory.rs:162-164 | the incremental root equals the from-scratch depth-27 tree hash of the flat contents |
| PagedMemory.Memory.TraverseBranch | crates/mipsevm/src/memory.rs:193-220 | from a path node downwards, collects the leaf and the true siblings in bottom-up order, and fails exactly below the leaves |
| PagedMemory.Memory.MerkleProof | crates/mipsevm/src/memory.rs:173-182 | the 896 bytes are the leaf and siblings of the flat contents; contents and invariant are untouched |
| MemoryProofs.ProofVerifies | crates/mipsevm/src/memory.rs:497-517 | folding the proof of any address along the address bits gives the root |
| MemoryProofs.LeafHoldsWord | crates/mipsevm/src/memory.rs:497-517 | the leaf of the proof holds the word that a read of the address returns |
| MemoryProofs.StatelessWrite | crates/mipsevm/src/memory.rs:173-262 | splicing a new word into the proof's leaf and folding with the old siblings gives the root after the write |
| MemoryProofs.ProofBinding | crates/mipsevm/src/memory.rs:173-220 | any 28 hashes that fold to the root are the honest proof, unless two hashed strings collide |
| MemoryProofs.SameRootSameByte | crates/mipsevm/src/memory.rs:173-220 | memories with equal roots hold the same byte at every address, unless two strings hashed by its proofs collide |
| MemoryProofs.ProofLength | crates/mipsevm/src/memory.rs:173-182 | a proof is 28 hashes, so the conversion to 896 bytes cannot fail |
| Interleavings.Perform | crates/mipsevm/src/memory.rs:119-306 | one operation of any kind on the cached structure answers as the flat memory does and changes it in the same way |
| Interleavings.PerformAll | crates/mipsevm/src/memory.rs:36-306 | through any interleaving of writes, reads, allocations (also of existing pages outside the lookup cache), roots, proofs and subtree hashes, every answer and the final contents are those of the flat memory |
| Interleavings.ReadsLastWrite | crates/mipsevm/src/memory.rs:232-287 | after any history a word is the last value written to it, zero if its page was allocated later, or its initial value |
| Interleavings.RootForgetsHistory | crates/mipsevm/src/memory.rs:572-612 | histories with the same last writes end with the same contents and root, whatever their order, allocations and cache use |
| Persistence.Serialize | crates/mipsevm/src/memory.rs:384-402 | the list is ascending by index and describes exactly the allocated pages and their bytes, pages beyond the address space included |
| Persistence.SortByIndex | crates/mipsevm/src/memory.rs:399-399 | the sorted list is ascending and a permutation of the collected one |
| Persistence.Deserialize | crates/mipsevm/src/memory.rs:404-428 | for any indices, succeeds exactly when none repeats, with a consistent memory whose pages the list describes |
| Persistence.DescribesOne | crates/mipsevm/src/memory.rs:384-429 | a page list describes one table of pages only |
| Persistence.HoldsOne | crates/mipsevm/src/memory.rs:384-429 | a table of pages stands for one flat memory only |
| Persistence.AscendingUnique | crates/mipsevm/src/memory.rs:389-400 | a table has one ascending list only, whatever order the hash map yields |
| Persistence.RoundTrip | crates/mipsevm/src/memory.rs:384-429 | saving and rebuilding gives the same pages with the same bytes, the same contents and root, whatever was cached |
| RangeLoading.MultiReader.Read | crates/mipsevm/src/patch.rs:176-187 | delivers the next bytes of the two parts joined, zero exactly at their end or without room, under arbitrary short reads |
| RangeLoading.InvalidatePage | crates/mipsevm/src/memory.rs:321-327 | dropping a page's cache without touching the nodes above keeps a consistent memory so exactly when no ancestor is cached |
| RangeLoading.PreparePage | crates/mipsevm/src/memory.rs:321-327 | finding or allocating a page and dropping its cache keeps a consistent memory so exactly when the page is new or has no cached ancestor |
| CacheFailures.LoadUnderCachedRoot | crates/mipsevm/src/memory.rs:323-327 | concrete failure: after a load under a cached root, hashing returns the root from before, which is wrong unless two hashed strings collide |
| CacheFailures.ReadReplacedPage | crates/mipsevm/src/memory.rs:296-306 | concrete failure: after reallocating a looked-up page, a read returns the word of the replaced page |
| RangeLoading.LoadChunk | crates/mipsevm/src/memory.rs:319-337 | one round of the load, whatever state earlier rounds left the nodes in: bytes spliced, page touched, nodes wrong only over touched pages |
| RangeLoading.ReadIntoPage | crates/mipsevm/src/memory.rs:329-336 | the bytes delivered, however few, are spliced in at the page offset and nothing else changes |
| RangeLoading.SetMemoryRange | crates/mipsevm/src/memory.rs:316-339 | overlays exactly the source from the start address on, wrapping like the address does, for any chunking; ends; the memory is consistent afterwards exactly when every cached ancestor of a touched page is an ancestor of a touched new page; on a read error the same for the prefix read |
| RangeLoading.OverlaySplice | crates/mipsevm/src/memory.rs:316-339 | for a range that does not wrap, the overlay replaces exactly that range |
| Segments.LoadSegment | crates/mipsevm/src/patch.rs:48-94 | fails exactly on the rejected headers, with a panic on fills beyond a vector's capacity; otherwise file bytes followed by zeros are overlaid at the segment's address |
| Segments.LoadElf | crates/mipsevm/src/patch.rs:34-97 | succeeds exactly when every segment is skipped or acceptable; contents are the segments overlaid in order, registers the initial ones |
| Segments.LoadedBytes | crates/mipsevm/src/patch.rs:48-94 | every byte is the file byte or fill of the last segment over it, zero elsewhere, when no end address wraps |
| Segments.GuardExact | crates/mipsevm/src/patch.rs:81-89 | an accepted segment lies in the address space exactly when its 64-bit end did not wrap |
| Segments.GuardMissesWrap | crates/mipsevm/src/patch.rs:81-89 | a concrete accepted header that starts above 2^32 and overwrites address zero |
| MemoryReaders.MemoryReader.Read | crates/mipsevm/src/memory.rs:447-475 | one chunk of the flat range up to the page or range end; panics exactly when the range wraps into its first page; short buffers are an error |
| MemoryReaders.MemoryReader.Drain | crates/mipsevm/src/mips/mips_vm.rs:292-299 | reading to the end terminates and yields exactly the requested bytes across any page boundaries |
| Alu.CountLeadingOnes | crates/mipsevm/src/mips/mips_vm.rs:656-669 | the shifting loop ends within 32 rounds with the number of leading ones |
| ArithmeticLaws.LogicExact | crates/mipsevm/src/mips/mips_vm.rs:633-640 | and, or, xor and nor act on each of the 32 bits alone |
| ArithmeticLaws.AddSubExact | crates/mipsevm/src/mips/mips_vm.rs:629-632 | add and sub are exact precisely when the true result fits, signed and unsigned |
| ArithmeticLaws.MulLowWord | crates/mipsevm/src/mips/mips_vm.rs:653-654 | mul leaves the low word of the product, signed and unsigned alike |
| ArithmeticLaws.MultExact | crates/mipsevm/src/mips/mips_vm.rs:483-496 | HI:LO is the exact signed product after mult and the exact unsigned product after multu |
| ArithmeticLaws.DivExact | crates/mipsevm/src/mips/mips_vm.rs:497-502 | panics exactly on a zero divisor and MIN by -1; otherwise LO and HI satisfy the law of truncated division |
| ArithmeticLaws.DivuExact | crates/mipsevm/src/mips/mips_vm.rs:503-508 | panics exactly on a zero divisor; otherwise quotient and remainder recombine with the remainder below the divisor |
| ArithmeticLaws.SignExtendExact | crates/mipsevm/src/mips/mips_vm.rs:749-758 | for 1 to 31 bits, sign extension is the two's-complement value |
| ArithmeticLaws.SraExact | crates/mipsevm/src/mips/mips_vm.rs:611-619 | sra and srav are floor division by a power of two exactly when the amount is not a multiple of 32 or the operand is zero |
| ArithmeticLaws.SraByZeroFails | crates/mipsevm/src/mips/mips_vm.rs:749-758 | concrete failure: 1 shifted right by 0 becomes 0 |
| ArithmeticLaws.CountExact | crates/mipsevm/src/mips/mips_vm.rs:655-669 | clo and clz are the lengths of the top run of ones and zeros, as bounds on the operand |
| NarrowAccess.NarrowLoads | crates/mipsevm/src/mips/mips_vm.rs:675-691 | lb, lbu, lh and lhu return the addressed byte or halfword of memory, signed or not |
| NarrowAccess.NarrowStores | crates/mipsevm/src/mips/mips_vm.rs:699-712 | sb and sh replace the addressed byte or halfword and no other byte of memory |
| Assembly.RFields | crates/mipsevm/src/mips/mips_vm.rs:99-109 | the fields of a register-format word are the numbers it was encoded from: opcode, three registers, shift amount, function code |
| Assembly.IFields | crates/mipsevm/src/mips/mips_vm.rs:99-117 | the same for the immediate format: opcode, two registers and sixteen bits |
| Assembly.ImmediateExtended | crates/mipsevm/src/mips/mips_vm.rs:117 | sign-extending the immediate gives its two's-complement value modulo 2^32 |
| Assembly.PlainStep | crates/mipsevm/src/mips/mips_vm.rs:78-195 | a step of anything but a syscall changes registers and memory by the instruction alone, and nothing else in the machine |
| ControlLaws.BeqLaw | crates/mipsevm/src/mips/mips_vm.rs:406-441 | beq goes to pc + 4 + 4d for the signed offset d when its registers are equal and to pc + 8 otherwise, is an error exactly in a delay slot, and changes nothing else |
| ControlLaws.BneLaw | crates/mipsevm/src/mips/mips_vm.rs:406-441 | bne does so when its registers differ |
| ControlLaws.BlezLaw | crates/mipsevm/src/mips/mips_vm.rs:412-441 | blez does so when its register is zero or negative |
| ControlLaws.BgtzLaw | crates/mipsevm/src/mips/mips_vm.rs:414-441 | bgtz does so when its register is positive |
| ControlLaws.BltzBgezLaw | crates/mipsevm/src/mips/mips_vm.rs:416-441 | bltz does so when its register is negative, bgez when it is not, and the other codes of the group never branch |
| ControlLaws.BranchAfterSlot | crates/mipsevm/src/mips/mips_vm.rs:395-444 | over two steps, the instruction after a branch's delay slot is the one those conditions and offsets name |
| ControlLaws.JumpLaw | crates/mipsevm/src/mips/mips_vm.rs:90-96 | j and jal keep the top four bits of the slot's address and take the rest from the target field; jal alone sets register 31, to pc + 8; errors exactly in a delay slot |
| ControlLaws.JumpRegisterLaw | crates/mipsevm/src/mips/mips_vm.rs:154-159 | jr and jalr go to the register's value; jalr alone sets its destination, unless that is register zero, to pc + 8; errors exactly in a delay slot |
| ControlLaws.ReturnLaw | crates/mipsevm/src/mips/mips_vm.rs:531-543 | a jr through the link register, any number of steps after the call, resumes at the call's pc + 8 when the register still holds what the call left there |
| RegisterLaws.ShiftLaw | crates/mipsevm/src/mips/mips_vm.rs:606-619 | sll, srl, sra and their register forms are multiplication and division by a power of two, the latter rounding down; sra and srav by zero give zero |
| RegisterLaws.AddCompareLaw | crates/mipsevm/src/mips/mips_vm.rs:629-644 | add, sub and their unsigned twins are the sum and the difference modulo 2^32; slt and sltu compare signed and unsigned numbers |
| RegisterLaws.LogicLaw | crates/mipsevm/src/mips/mips_vm.rs:633-640 | and, or, xor and nor put the number whose 32 digits are the operation on each digit |
| RegisterLaws.MoveLaw | crates/mipsevm/src/mips/mips_vm.rs:160-167 | movz moves exactly when the second register is zero, movn exactly when it is not |
| RegisterLaws.ImmediateLaw | crates/mipsevm/src/mips/mips_vm.rs:586-644 | addi, addiu, slti and sltiu work on the sign-extended immediate and put the result into their second register |
| RegisterLaws.ImmediateLogicLaw | crates/mipsevm/src/mips/mips_vm.rs:112-114 | andi, ori and xori work on the unsigned immediate |
| RegisterLaws.UpperImmediateLaw | crates/mipsevm/src/mips/mips_vm.rs:673-674 | lui puts the immediate times 2^16 |
| RegisterLaws.MultiplyCountLaw | crates/mipsevm/src/mips/mips_vm.rs:652-669 | mul puts the low word of the product; clz and clo put 32 less the length in binary of the operand or of its complement |
| RegisterLaws.SyncLaw | crates/mipsevm/src/mips/mips_vm.rs:623-625 | sync copies its first register to its destination |
| RegisterLaws.IllegalLaw | crates/mipsevm/src/mips/mips_vm.rs:645-733 | words outside the instruction set are errors, by function code or by opcode |
| HiLoLaws.MovePairLaw | crates/mipsevm/src/mips/mips_vm.rs:464-482 | mfhi and mflo deliver HI and LO; mthi and mtlo set one, keep the other and clear their destination |
| HiLoLaws.ArithmeticPairLaw | crates/mipsevm/src/mips/mips_vm.rs:483-508 | mult, multu, div and divu leave the exact product or remainder and quotient in HI and LO, clear their destination, and panic exactly where the division does |
| HiLoLaws.PairReadBack | crates/mipsevm/src/mips/mips_vm.rs:457-520 | over three steps, mfhi and mflo put that product, or remainder and quotient, into two registers and keep the others |
| HiLoLaws.PairKept | crates/mipsevm/src/mips/mips_vm.rs:78-195 | every other instruction keeps HI and LO |
| HiLoLaws.PairSurvives | crates/mipsevm/src/mips/mips_vm.rs:457-520 | over any run that does not write the pair, mfhi and mflo deliver at its end what HI and LO were at its start |
| MemoryLaws.LoadWordLaw | crates/mipsevm/src/mips/mips_vm.rs:686-730 | lw and ll put the big-endian number of the four bytes at base plus signed offset, its two low bits ignored, into their register and change no memory |
| MemoryLaws.StoreWordLaw | crates/mipsevm/src/mips/mips_vm.rs:720-732 | sw and sc replace exactly those four bytes by the register's; sc then leaves 1 in its nonzero register |
| MemoryLaws.StoreThenLoadWord | crates/mipsevm/src/mips/mips_vm.rs:687-732 | over two steps, a word loaded from where one was just stored is the one stored, whatever registers and offsets name the address |
| MemoryLaws.LoadNarrowLaw | crates/mipsevm/src/mips/mips_vm.rs:675-691 | lb, lbu, lh and lhu put the byte or the halfword of memory over the address, as a signed or an unsigned number |
| MemoryLaws.StoreNarrowLaw | crates/mipsevm/src/mips/mips_vm.rs:699-712 | sb and sh replace exactly the byte, or the two bytes of the halfword over the address, by the low bytes of the register |
| Unaligned.UnalignedLoad | crates/mipsevm/src/mips/mips_vm.rs:679-698 | lwl then lwr, run as two machine steps, leave the four bytes at any address in the register |
| Unaligned.UnalignedStore | crates/mipsevm/src/mips/mips_vm.rs:713-728 | swl then swr, run as two machine steps, replace exactly the four bytes at any address |
| Unaligned.StoreThenLoad | crates/mipsevm/src/mips/mips_vm.rs:679-728 | loading those four bytes after the store gives the register back |
| Witness.WitnessRoundTrip | crates/mipsevm/src/state.rs:49-67 | root and every register can be decoded from the 226 bytes |
| Witness.WitnessInjective | crates/mipsevm/src/state.rs:49-67 | equal witnesses have equal roots and registers |
| Words.WordDigits | crates/mipsevm/src/state.rs:53-64 | byte i of a word in the encoding is its base-256 digit at place 3 - i, highest first |
| Words.LongDigits | crates/mipsevm/src/mips/mips_vm.rs:41 | byte i of the eight bytes of a length or step count is its base-256 digit at place 7 - i |
| Witness.EncodingSlices | crates/mipsevm/src/state.rs:49-67 | each field lies in its own slice of the encoding |
| Witness.RegisterSlice | crates/mipsevm/src/state.rs:62-65 | register i is the big-endian word at its slice |
| Witness.StateHashTellsStatus | crates/mipsevm/src/witness.rs:12-21 | the first byte of the state hash is the status computed from exit flag and code, the rest is the hash |
| Instrumented.State.EncodeWitness | crates/mipsevm/src/state.rs:49-67 | the buffer filled slice by slice is the encoding of the true root and the registers; only memory caches change |
| Machine.StepProjects | crates/mipsevm/src/mips/mips_vm.rs:78-195 | registers and memory move independently of hints, logs and the preimage cache |
| Cpu.StoreHasAccess | crates/mipsevm/src/mips/mips_vm.rs:131-191 | an instruction stores only at the one address it accesses |
| Vm.InstrumentedState.HandleRd | crates/mipsevm/src/mips/mips_vm.rs:555-567 | the state afterwards is that of the specified write-back, with the same error |
| Vm.InstrumentedState.HandleJump | crates/mipsevm/src/mips/mips_vm.rs:531-543 | program counters and link register are as specified; fails exactly in a delay slot, with its error |
| Vm.InstrumentedState.HandleBranch | crates/mipsevm/src/mips/mips_vm.rs:395-444 | the branch decision and target are as specified; fails exactly in a delay slot, with its error |
| Vm.InstrumentedState.HandleHiLo | crates/mipsevm/src/mips/mips_vm.rs:457-520 | HI, LO and the destination are as specified; panics exactly where the division does |
| Vm.InstrumentedState.TrackMemAccess | crates/mipsevm/src/mips/mips_vm.rs:61-71 | records the true proof of the first address of a step and fails exactly on a second, different one |
| Vm.InstrumentedState.ReadPreimage | crates/mipsevm/src/mips/mips_vm.rs:29-51 | returns at most 32 bytes of the length-prefixed preimage at the offset, from host or cache alike; panics past the end |
| Vm.InstrumentedState.SyscallReadPreimage | crates/mipsevm/src/mips/mips_vm.rs:247-272 | registers, memory, offset and cache are those of the specified read, and the proof of its address is recorded |
| Vm.InstrumentedState.SyscallWriteKey | crates/mipsevm/src/mips/mips_vm.rs:320-346 | the key is shifted as specified and the offset reset, and the proof of its address is recorded |
| Vm.InstrumentedState.DeliverHints | crates/mipsevm/src/mips/mips_vm.rs:302-317 | the loop takes and leaves the hints that the specification says, and stops on its errors |
| Vm.InstrumentedState.SyscallWriteOutput | crates/mipsevm/src/mips/mips_vm.rs:284-319 | exactly the requested memory range reaches the log or the hint buffer, with the specified error otherwise |
| Vm.InstrumentedState.SyscallMmap | crates/mipsevm/src/mips/mips_vm.rs:214-230 | result and heap pointer are as specified |
| Cpu.FcntlAgrees | crates/mipsevm/src/mips/mips_vm.rs:352-371 | fcntl reports a descriptor as read-only exactly when the read call knows it, as write-only exactly when the write call does, as bad when neither does |
| SyscallLaws.FixedCallLaw | crates/mipsevm/src/mips/mips_vm.rs:231-242 | brk returns the fixed break, clone 1, unknown numbers 0; exit sets the flag and the low byte of the code and does not move on; nothing else changes |
| SyscallLaws.MmapLaw | crates/mipsevm/src/mips/mips_vm.rs:214-230 | mmap at an address returns it; without one it returns the heap pointer and moves it up by the size in whole pages |
| SyscallLaws.FcntlLaw | crates/mipsevm/src/mips/mips_vm.rs:352-371 | fcntl returns 0 for the readable and 1 for the writable descriptors, and -1 with the error of a bad descriptor or a bad command |
| SyscallLaws.PlainReadLaw | crates/mipsevm/src/mips/mips_vm.rs:243-282 | reading the terminal returns 0, reading hints the whole request, and other descriptors -1 with the error |
| SyscallLaws.LogWriteLaw | crates/mipsevm/src/mips/mips_vm.rs:284-294 | writing to one of the two logs appends exactly the requested bytes to that log and returns their number; it panics exactly when the range comes back to its first page |
| SyscallLaws.HintWriteLaw | crates/mipsevm/src/mips/mips_vm.rs:295-319 | writing hints appends exactly the requested bytes to the pending ones, runs the hint loop on them and returns their number; it fails exactly when the range or the loop does |
| SyscallLaws.BadWriteLaw | crates/mipsevm/src/mips/mips_vm.rs:347-350 | writing to any other descriptor returns -1 with the error |
| SyscallLaws.KeyWriteLaw | crates/mipsevm/src/mips/mips_vm.rs:320-346 | a key write takes exactly the lesser of the request and the rest of the addressed word, shifts those bytes of memory into the key, rewinds the preimage and returns the number |
| SyscallLaws.PreimageReadLaw | crates/mipsevm/src/mips/mips_vm.rs:247-272 | a preimage read copies exactly the least of the request, the rest of the addressed word and the rest of the preimage to the address, moves the offset and returns the number |
| SyscallLaws.PreimageReadFails | crates/mipsevm/src/mips/mips_vm.rs:247-254 | it fails when the host has no such preimage and panics when the offset is past the end |
| Vm.InstrumentedState.HandleSyscall | crates/mipsevm/src/mips/mips_vm.rs:202-382 | the whole machine afterwards is the specified one, errors are the specified ones and leave memory alone, and the access is recorded |
| Vm.InstrumentedState.RunCompute | crates/mipsevm/src/mips/mips_vm.rs:98-195 | loads, stores and ALU instructions do what the specification says, tracking errors included, and record their address |
| Vm.InstrumentedState.StoreWord | crates/mipsevm/src/mips/mips_vm.rs:185-191 | tracks the address once more and propagates its failure; otherwise exactly that word changes and the recorded proof stays |
| Vm.NeverDifferentAccess | crates/mipsevm/src/mips/mips_vm.rs:61-71 | a step never fails for accessing a second, different address |
| Vm.InstrumentedState.InnerStep | crates/mipsevm/src/mips/mips_vm.rs:78-195 | one step succeeds exactly when the specification does and reaches its machine, or fails with its error, which is never that of a second address |
| Vm.InstrumentedState.Step | crates/mipsevm/src/mips/instrumented.rs:67-100 | with and without proof the step succeeds on the same machines and reaches the same one, or fails with the same error, never that of a second address; with proof it emits exactly the specified witness |
| VmRuns.StepBothWays | crates/mipsevm/src/mips/instrumented.rs:67-100 | two machines in one state, one proving and one not, succeed together and stay equal, or fail with the same error, never that of a second address |
| VmRuns.RunModes | crates/mipsevm/src/mips/instrumented.rs:67-100 | any sequence of steps with any choice of proofs is the run of the specification, errors included |
| VmRuns.RunProving | crates/mipsevm/src/mips/instrumented.rs:67-100 | the witnesses collected along a run form a chain from the state before it to the state after it |
| Replay.WitnessSufficient | crates/mipsevm/src/test_utils/evm.rs:333-339 | the emitted witness of a successful step replays, without the memory, to the witness of the new state, exactly unless a preimage is read at offset 2^32 - 1 |
| Replay.ReservedReadUnreplayable | crates/mipsevm/src/mips/instrumented.rs:89-94 | a concrete step that succeeds at the reserved offset and whose witness does not replay |
| Replay.HonestInstruction | crates/mipsevm/src/mips/mips_vm.rs:135-191 | with the honest proof, replaying an instruction gives the registers and the root that running it gives |
| Replay.OutsideIndependence | crates/mipsevm/src/mips/mips_vm.rs:202-382 | an instruction depends on the preimage only when it reads it, and on the output side only to fail |
| Replay.EmittedOpens | crates/mipsevm/src/mips/instrumented.rs:73-97 | state, instruction proof and access proof can be read back from the emitted bytes |
| ReplayRuns.RunReplays | crates/mipsevm/src/mips/instrumented.rs:67-100 | over any run, the emitted witnesses alone lead from the first state witness to the last |
| ReplayRuns.ReplaySound | crates/mipsevm/src/test_utils/evm.rs:333-339 | whatever proofs a witness carries, an accepted replay is the true step, unless two hashed strings collide |
| ReplayRuns.ChainSound | crates/mipsevm/src/test_utils/evm.rs:333-339 | any accepted chain of witnesses ends in the true state of the run |
| Runs.StepControl | crates/mipsevm/src/mips/mips_vm.rs:78-95 | a step of a running machine counts one, keeps register zero, exits exactly on the exit call and otherwise moves to the old next pc |
| Runs.ExitedStays | crates/mipsevm/src/mips/mips_vm.rs:79-81 | an exited machine is a fixed point of any number of steps |
| Runs.RunCounters | crates/mipsevm/src/mips/mips_vm.rs:78-83 | over any run register zero stays zero and the counter has advanced by the number of steps |
| Runs.RunDelaySlots | crates/mipsevm/src/mips/mips_vm.rs:402-404 | over any run no two consecutive states both have a pending transfer |
| Runs.JumpAfterOneSlot | crates/mipsevm/src/mips/mips_vm.rs:395-543 | a jump, register jump or branch succeeds only outside a delay slot and reaches its target after exactly one more instruction |
| Heap.HeapLaidOut | crates/mipsevm/src/mips/mips_vm.rs:214-230 | over any run whose rounded requests fit, open mmap calls return regions laid end to end from the initial heap pointer |
| Heap.LaidOutApart | crates/mipsevm/src/mips/mips_vm.rs:214-230 | such regions are page-aligned, pairwise disjoint and as large as requested |
| Heap.StepHeap | crates/mipsevm/src/mips/mips_vm.rs:202-382 | no other instruction or syscall moves the heap pointer |
| Streaming.FetchDelivers | crates/mipsevm/src/mips/mips_vm.rs:247-272 | one read puts the next piece of the stream, as long as request, word and stream allow, at its address and nowhere else, and reports zero exactly at the end or when asked for none |
| Streaming.StreamDelivered | crates/mipsevm/src/mips/mips_vm.rs:247-272 | over any run the reads deliver consecutive pieces of the length-prefixed preimage without skip or repeat, and the offset never passes the end |
| Streaming.KeyWriteShifts | crates/mipsevm/src/mips/mips_vm.rs:320-346 | a key write shifts in the bytes at its address, as many as it reports and as request and word allow, and resets the offset |
| Streaming.KeyIsShiftRegister | crates/mipsevm/src/mips/mips_vm.rs:320-346 | over any run the key is the last 32 bytes of the initial key and all accepted bytes, whose number is the sum of the reported counts |
| HintBuffers.HintLoopExact | crates/mipsevm/src/mips/mips_vm.rs:304-317 | the loop delivers all complete hints and keeps the rest exactly when the first hint ends at the buffer's end or no length is there |
| HintBuffers.HintLoopFails | crates/mipsevm/src/mips/mips_vm.rs:304-317 | concrete failures: two empty hints are not delivered, a length without its hint panics |
| HintBuffers.RunDeliversHints | crates/mipsevm/src/mips/mips_vm.rs:295-319 | over any run whose hint writes are one whole hint each, the host accepts exactly the hints written, in order, with nothing left pending |
| HintBuffers.RunConservesHints | crates/mipsevm/src/mips/mips_vm.rs:295-319 | over any run, however hints are cut into writes, the pending bytes and all bytes written are exactly the hints accepted, in order and each after its length, and the bytes still pending |
| OracleProtocol.StepKeeps | crates/preimage/src/oracle.rs:21-66 | every step of either party, with any split of reads and writes, keeps the protocol invariant |
| OracleProtocol.GetsAreCorrect | crates/preimage/src/oracle.rs:21-66 | over any interleaving the i-th answer is the getter's value for the i-th key, and between requests both channels are empty |
| OracleProtocol.StuckMeansDone | crates/preimage/src/oracle.rs:21-66 | a run that cannot go on has answered every key, or the getter has failed on the next one |
| OracleProtocol.RunsAreBounded | crates/preimage/src/oracle.rs:21-66 | no run is longer than the bytes there are to move, so every run ends |
| OracleEndpoints.Pipe.ReadExact | crates/preimage/src/oracle.rs:25-34 | the loop of partial reads returns exactly the requested bytes or fails when they are not there |
| OracleEndpoints.OracleServer.NewPreimageRequest | crates/preimage/src/oracle.rs:54-66 | takes one key and answers with length and value of the getter, or answers nothing |
| OracleEndpoints.OracleClient.Collect | crates/preimage/src/oracle.rs:25-36 | reads back exactly the value of one answer and leaves what follows it |
| OracleEndpoints.Get | crates/preimage/src/oracle.rs:21-37 | a call returns the getter's value and leaves both pipes empty |
| HintProtocol.StepKeeps | crates/preimage/src/hints.rs:20-73 | every step of writer or reader keeps the protocol invariant |
| HintProtocol.HintsInOrder | crates/preimage/src/hints.rs:20-73 | over any interleaving the handler sees the hints in order, at most one is unacknowledged, and an idle writer finds empty channels |
| HintProtocol.StuckMeansDelivered | crates/preimage/src/hints.rs:63-72 | a run that cannot go on has delivered and acknowledged every hint, refused ones too |
| HintProtocol.StepWorks | crates/preimage/src/hints.rs:20-73 | every step uses up work, so every run ends |

## Left out

- Keccak-256 and its SIMD variant: the hash is an uninterpreted function; binding results name the strings that must not collide.
- ELF parsing, symbol tables, the Go symbol patches and the constants of the stack patch: segments are taken as parsed headers with their bytes.
- JSON, hex and gzip layers: the round trip is that of the page list.
- `Kernel::run`, the builder, the process oracle, the command line, threads, file descriptors and tracing.
- ABI encoding of witnesses, the EVM and its contract: replaying is this model's own step function on proof-supplied words.
- `Memory::clone`, the usage string and the random memories of the tests.
- Writers for stdout and stderr are byte logs that never fail; what an output call has written before it fails is not modelled.
- After a failed step only the memory contents are specified; registers may be partly updated, as in the source.
- The preimage host and the hint handler are functions of the key and of the hints accepted so far, with one error each; a host whose answers change otherwise is not modelled. Preimages are below 2^63 bytes.
- Pages.CachedPage.MerkleizeSubtree: index 0 is excluded once its entry is marked invalid, as the source then recurses without end.
- Segments.LoadedBytes: requires that no segment's 64-bit end address wraps; `Segments.LoadElf` covers wrapping ones.
- Segments.LoadElf: a segment without fill is read through a two-part reader whose second part is empty; running out of memory for a fill that a vector can hold is not modelled.
- HintBuffers.HintLoopExact: pending hint bytes are below 2^32 + 4, where the loop's 32-bit length is exact.
- Heap.HeapLaidOut: requests that wrap the 32-bit heap pointer are outside its claim.
- Unaligned.UnalignedStore: the first store must not overwrite the second instruction, and the four bytes must not wrap.
- Streaming.StreamDelivered: covers streams of fewer than 2^32 bytes including the length, between key writes; the key that is all zeros starts with an empty cached preimage and is excluded unless the cache is its stream.
- OracleProtocol.StepKeeps: client and server are a state machine over bytes moved, since they run concurrently; closed channels and read errors are left out.
- HintProtocol.StepKeeps: the writer's message and the reader's length are whole transfers, as single calls on the channel; the end-of-file result and hints of 2^32 bytes or more are left out.
- `Memory::merkleize_subtree` tests at line 139 for indices that line 126 has already handled; that test has no counterpart.
