# fastmem — a Dafny model of a size-class allocator for `no_std` firmware

The allocator serves values from one fixed byte array. It is built from
three parts, and each is modelled over natural-number addresses.

- **`Heap`** (`src/heap.rs`) is an align-respecting bump allocator.
  - `alloc` rounds the `start` cursor up to the type's alignment and reserves `size` bytes.
  - It panics "oom" when the value would pass `end`.
  - `free_size` reports what is left.
- **`Stack`** (`src/stack.rs`) is an intrusive, type-erased LIFO free-list.
  - A node record holds a link `next` and a payload.
  - `push` writes the old head into the node's link.
  - `pop` moves the head to the popped node's link and clears that link.
  - Node records live in an address-to-record map.
  - The stack's contents are given by a ghost view: the sequence of addresses reached by following links from `head`.
- **`FastMem`** (`src/lib.rs`) is a two-ended arena with a size-class router.
  - `alloc` carves data slots of width `2^index` upward from `start`.
  - `alloc_node` carves fixed-size node records downward from `end`.
  - `try_new` first computes the class index `32 - lz(size - 1)`. It pops a recycled node from `stacks[index]` if there is one, after an alignment check. Otherwise it carves a fresh slot and a fresh node.
  - `new` panics "Out of memory" where `try_new` returns `None`.
  - A live node's link holds the address of its class stack.
  - Dropping a handle pushes its node back onto that stack.

Panics are modelled as an `Outcome` with a `Panic` reason. Missing results (`None`) are modelled as `Option`. Rust layout facts are parameters of the model: the word size, `size_of::<Node>()`, and a type's size and alignment (`Layout`). Memory contents are kept in maps from address to value, which record what was written where.

The files:

| file | module | contents |
|---|---|---|
| `common.dfy` | `Common` | addresses, `Option`, `Outcome`/`Panic`, powers of two, alignment facts, `Layout` |
| `stack.dfy` | `FreeList` | `Node`, `Stack`, `push`, `pop`, the chain view |
| `stack_lemmas.dfy` | `FreeListLemmas` | acyclicity, framing, push/pop on the view, LIFO scenarios |
| `heap.dfy` | `BumpHeap` | `init`, `free_size`, `alloc` |
| `heap_lemmas.dfy` | `BumpHeapLemmas` | free-size accounting, disjoint placement, the layout scenario |
| `size_class.dfy` | `SizeClass` | leading zeros, the class index and its characterisation |
| `fastmem.dfy` | `FastMemArena` | `init`, `alloc`, `alloc_node`, `try_new`, `new`, release |
| `fastmem_lemmas.dfy` | `FastMemLemmas` | the arena invariant, its preservation, alignment, recycling, the finding |

The arena invariant is `FastMemLemmas.Inv(fm, views)`, where `views` holds the contents of the class stacks. It says:

- the cursors satisfy `base <= start <= end <= base + N`;
- every class stack is an acyclic chain whose contents are its view;
- no node is on two stacks;
- node records lie at or above `end`;
- every node on stack `i`, and every live node whose link names stack `i`, has a data slot that is aligned to `2^i` and ends at or below `start`;
- the class-width slots `[data, data + 2^i)` of two distinct such nodes do not overlap.

## Model

| member | source | states |
|---|---|---|
| FreeList.NewNode | src/stack.rs:18-20 | a new node record is unlinked and carries the given payload |
| FreeList.NewStack | src/stack.rs:29-33 | a new stack has no head |
| FreeListLemmas.NewStackIsEmpty | src/stack.rs:29-33 | a new stack has the empty view, and popping it yields nothing and changes nothing |
| FreeList.Push | src/stack.rs:37-41 | the pushed node becomes the head and its link takes the old head; its payload, the set of records and every other record are unchanged |
| FreeList.Pop | src/stack.rs:45-57 | an empty stack yields `None` and stays empty; otherwise it returns the old head, the head moves to that node's former link, and the node's link is cleared with its payload kept; no other record changes |
| FreeListLemmas.ListFromDistinct | src/stack.rs:37-57 | a chain that ends in `None` visits no node twice, so the free-list is acyclic |
| FreeListLemmas.ListFromFrame | src/stack.rs:37-57 | rewriting a record that is not on a chain leaves the chain and its view intact |
| FreeListLemmas.PushView | src/stack.rs:37-41 | pushing a node that is not on the stack puts it in front of the view |
| FreeListLemmas.PopView | src/stack.rs:45-57 | pop returns the first node of the view, unlinked, and the rest of the view remains; an empty view pops `None` |
| FreeListLemmas.PushThenPop | src/stack.rs:37-57 | push(n) then pop returns `n`, restores the previous stack, and leaves every record as before except that `n`'s link is cleared |
| FreeListLemmas.LifoAcrossPayloadTypes | src/stack.rs:72-100 | pushing an `i32` node and then an `[i32; 4]` node onto one new stack pops the second node first and then the first; the stack ends empty and both payloads are untouched |
| FreeList.PushAll | src/stack.rs:37-41 | pushing a sequence of nodes keeps the set of records, leaves the last one on top, and keeps every link pointing into the records |
| FreeList.PopN | src/stack.rs:45-57 | popping `k` times yields at most `k` nodes and keeps the set of records and the closedness of links |
| FreeListLemmas.PushAllView | src/stack.rs:37-41 | pushing distinct fresh nodes puts them in front of the view in reverse order |
| FreeListLemmas.PopNView | src/stack.rs:45-57 | popping `k` times returns the first `k` nodes of the view in order and leaves the rest as the view |
| FreeListLemmas.PopNPopped | src/stack.rs:45-57 | popping `k` times from a chain with view `xs` returns exactly `xs[..k]`, front first |
| FreeListLemmas.PopNRest | src/stack.rs:45-57 | after `k` pops the remaining stack's view is `xs[k..]` |
| FreeListLemmas.PushPopStress | src/stack.rs:78-99 | pushing any distinct nodes onto a new stack and popping as many times returns them exactly reversed and leaves the stack empty |
| BumpHeap.Init | src/heap.rs:49-54 | `start` is the store's address and `free_size` equals the store's size |
| BumpHeap.FreeSize | src/heap.rs:56-58 | the free size is the distance from `start` to `end` |
| BumpHeap.AlignUp | src/heap.rs:64-76 | the padded start is the smallest multiple of the alignment that is at least `start`; an aligned `start` gets no padding |
| BumpHeap.Alloc | src/heap.rs:60-92 | panics "oom" exactly when the aligned value would end past `end`, with the cursors unchanged; otherwise the address is aligned, within one alignment of the old `start`, `start` moves past the value, and the value is stored at the address |
| BumpHeap.AllocAll | src/heap.rs:104-110 | a run of allocations that succeeds returns one address per request |
| BumpHeapLemmas.AllocFreeSize | src/heap.rs:79-87 | a successful `alloc` keeps `start <= end` and lowers the free size by the size plus the padding |
| BumpHeapLemmas.AllocAllDisjoint | src/heap.rs:79-88 | successive allocations are aligned, lie at or above the first `start`, occupy increasing and non-overlapping ranges below the final `start`, and every non-empty value can be read back at its address |
| BumpHeapLemmas.AllocAllUntouched | src/heap.rs:84-88 | cells below `start` are never overwritten by later allocations |
| BumpHeapLemmas.LayoutScenario | src/lib.rs:484-516 | a `u8`, a `[u8; 2]`, a `u32`, a `[u16; 3]` and a `u32` from a 4-aligned 128-byte store land at offsets 0, 1, 4, 8 and 0x10, with 128 - 0x14 bytes left |
| SizeClass.LeadingZerosIsWidthMinusBitLength | src/lib.rs:177 | the leading zeros of a `width`-bit number are `width` minus its bit length |
| SizeClass.ClassIndex | src/lib.rs:177 | for `1 <= size <= 2^32` the index is the rounded-up base-2 logarithm of `size`: `2^index >= size` and either `index == 0` or `2^(index-1) < size` |
| SizeClass.ClassIndexUnique | src/lib.rs:177 | `k` is the class index of `size` if and only if `2^k` is the tightest power of two at or above `size` |
| SizeClass.AlignWithinClass | src/lib.rs:177 | a type whose size is a multiple of its alignment is no more aligned than its class width |
| FastMemArena.StackAddr | src/lib.rs:88-94 | the address of `stacks[i]`, which `try_new` writes into a live node's link, lies past the heap array and the two cursors |
| FastMemArena.Init | src/lib.rs:65-83 | panics exactly when `N` is not a multiple of the word size; otherwise `start` is the heap base, `end == start + N`, and all `S` class stacks are empty |
| FastMemLemmas.InitEstablishesInv | src/lib.rs:68-80 | a successful `init` establishes the arena invariant with every view empty |
| FastMemArena.BlockAbove | src/lib.rs:107-112 | the first multiple of the width strictly above `start`, so an aligned `start` skips a whole block |
| FastMemArena.Alloc | src/lib.rs:106-133 | the slot is the smallest multiple of `2^index` strictly above `start` and is `2^index` wide; it fails with the cursors unchanged exactly when the slot would end past `end`, and otherwise `start` moves to the slot's end, strictly upward and not past `end` |
| FastMemArena.AllocNode | src/lib.rs:144-161 | fails with nothing changed exactly when `end - size_of Node < start`; otherwise the new record sits just below the old `end`, at or above `start`, and only `end` moves |
| FastMemArena.Fill | src/lib.rs:205-213 | handing out a node writes the value into its data slot and records the class stack in its link, changing nothing else |
| FastMemArena.Reuse | src/lib.rs:180-192 | recycling pops the head of the class stack and hands it out with its old data slot; the cursors stay put |
| FastMemArena.Carve | src/lib.rs:193-202 | with an empty class stack, there is no handle exactly when the slot plus a node record does not fit; if only the slot fits, `start` stays bumped and is not rolled back; otherwise the new node sits just below `end`, its slot above `start`, and the value is in the slot |
| FastMemArena.TryNewWith | src/lib.rs:176-214 | panics exactly when the class index has no stack or a recycled node fails the alignment check, with `IndexOutOfBounds` or `IllegalAlignment` naming the probed address; otherwise a non-empty class stack is recycled (`Reuse`) and an empty one carves fresh memory (`Carve`) |
| FastMemArena.TryNewAsWritten | src/lib.rs:186-189 | the check as written tests the popped node record's own address, so its alignment panic names the head node |
| FastMemArena.TryNew | src/lib.rs:176-214 | `try_new` with the check on the data slot: an alignment panic names a data slot that is in fact misaligned |
| FastMemArena.NewWith | src/lib.rs:166-171 | for either recycling check, `new` returns exactly what `try_new` hands out, panics "Out of memory" exactly when `try_new` returns no handle, and passes on every other panic |
| FastMemArena.NewAsWritten | src/lib.rs:166-171 | `new` as written: the same relation over `try_new` with the node-address check, so its "illegal alignment" panics reach the caller |
| FastMemArena.New | src/lib.rs:166-171 | `new` over the corrected check: the same relation over the corrected `try_new` |
| FastMemArena.Release | src/my_box.rs:42-48 | dropping a handle pushes its node back onto its class stack and changes nothing else |
| FastMemLemmas.LiveNotOnStack | src/lib.rs:211 | a live node, whose link names a class stack, is on no class stack |
| FastMemLemmas.TryNewPreservesInv | src/lib.rs:176-214 | a successful `try_new`, with either check, keeps the arena invariant; a recycled node leaves its stack's view, and every handle returned is live |
| FastMemLemmas.ReleasePreservesInv | src/my_box.rs:42-48 | dropping a live handle keeps the invariant, with its node on top of its class stack's view |
| FastMemLemmas.TryNewAligned | src/lib.rs:176-214 | under the invariant the corrected `try_new` panics exactly when the class index has no stack, and every handle's data slot is aligned for the type |
| FastMemLemmas.NewAligned | src/lib.rs:166-171 | under the invariant the corrected `new` hands out a data slot aligned for the type, and panics only for a missing class stack or out of memory; `new` as written can also panic "illegal alignment" (see `FastMemLemmas.ScenarioRecycle`) |
| FastMemLemmas.AsWrittenOnlyAddsPanics | src/lib.rs:186-189 | under the invariant the check as written agrees with the corrected one whenever it does not panic; where the two differ, only the as-written check panics, and with an alignment panic |
| FastMemLemmas.RecycleSameSlot | src/lib.rs:180-192 | with the corrected `new`: `new`, drop, then `new` of the same class returns the same node and data slot without moving either cursor, and the slot then holds the new value; `new` as written may instead panic on the recycled node (see `FastMemLemmas.ScenarioRecycle`) |
| FastMemLemmas.LiveApart | src/lib.rs:106-131 | two live handles on distinct nodes have non-overlapping class-width slots |
| FastMemLemmas.TryNewApart | src/lib.rs:176-214 | a handle `try_new` returns, on the recycling or the fresh path and under either check, takes a node no live handle holds, leaves every live handle live, and its slot overlaps no live handle's slot |
| FastMemLemmas.NewApart | src/lib.rs:166-171 | the same for the handle `new` returns |
| FastMemLemmas.FreshSlotAboveLive | src/lib.rs:106-161 | a fresh data slot lies wholly above every live handle's slot and wholly below every node record |
| FastMemLemmas.SpuriousAlignmentPanic | src/lib.rs:186-189 | a concrete `new`, drop, `try_new` sequence in which the check as written panics on a correctly aligned slot, while the corrected check hands that slot out |
| FastMemLemmas.ScenarioRecycle | src/lib.rs:183-191 | from any arena whose class-5 stack holds the node at `base + 112` pointing to the slot `base + 32`, the check as written panics with `IllegalAlignment(base + 112)` while the corrected check returns that slot |

## Left out

- Machine-word arithmetic: addresses and sizes are unbounded naturals, so `usize` overflow is not modelled.
- Zero-sized types: the `size_of::<T>() - 1` underflow for a zero-sized type is excluded by requiring `size >= 1`. The `as u32` truncation of larger sizes is modelled.
- `FastMemStore::new` and `Heap::new` only set placeholder cursors before `init`. They are left out.
- `RacyCell`, the `Sync` impls and the `transmute` lifetime and pointer casts are not modelled. They exist for sharing across interrupts and for aliasing, and add no behaviour. Pointers are plain addresses.
- The `trace!`/`println!` output, the `Display` impls and the `hprintln` semihosting calls are left out, because they are output only.
- `src/list.rs` is a draft that does not compile, so it is left out.
- `src/my_box.rs`: only dropping a handle is modelled, as a push of its node onto its class stack (`FastMemArena.Release`). `Alloc::free` is not part of this model. `Deref`/`DerefMut` are plain field access.
- The handle `Box` carries its class index, which the Rust box reaches through the node's link.
- The example binaries under `no_std_example/` and the inline-assembly `log2` are hardware callers, so they are left out.
- Rust layout facts are parameters, not computed: `size_of::<usize>()`, `size_of::<Node>()`, and a type's size and alignment. The alignment is given as its base-2 logarithm because Rust alignments are powers of two.
- The address of `stacks[i]` follows the `repr(C)` field order: the heap array, then the two cursors, then the stacks, one word each. This assumes `N` is a multiple of the word size, as `init` checks.
- The recycling check in the source runs after `pop`. The model reads the same address before the pop, which is equivalent because `pop` changes only the popped node's link. State after a panic is not modelled.
- FreeList.PushAll: its own contract states only shape facts. Its contents are stated by FreeListLemmas.PushAllView.
- FreeList.PopN: its own contract states only shape facts. Its contents are stated by FreeListLemmas.PopNView, FreeListLemmas.PopNPopped and FreeListLemmas.PopNRest.
- BumpHeap.AllocAll states only the number of addresses in its own contract. Placement is stated by BumpHeapLemmas.AllocAllDisjoint.

## Findings

| source | as written | input that shows it | evidently intended | confidence | as-written member | corrected member |
|---|---|---|---|---|---|---|
| src/lib.rs:186-189 | the recycling path checks `node as *const _ as usize % align_of::<T>()`, which is the address of the node record, although the comment says "check alignment of data" and the value is written to `node.ptr` | 64-bit target with 16-byte node records; `N = 128` at a 32-aligned base, `S = 8`; type of size 32 and alignment 32. `new` puts the slot at `base + 32` and the node at `base + 112`; drop the handle; `new` again pops the node at `base + 112`, which is 16 modulo 32, and panics "illegal alignment" although the slot at `base + 32` is 32-aligned | check the data slot `node.ptr`, which the invariant keeps aligned to the class width and so to the type | medium, not executed | FastMemLemmas.SpuriousAlignmentPanic | FastMemLemmas.TryNewAligned |

In the Dafny the two sides are:

- `FastMemArena.TryNewAsWritten` is the check as written.
- `FastMemArena.TryNew` is the corrected check. `FastMemArena.New` is built on it.
- `FastMemArena.NewAsWritten` is `new` as written, over `TryNewAsWritten`. In the scenario it panics "illegal alignment" at `base + 112`, while `FastMemArena.New` returns the handle.
- `FastMemLemmas.AsWrittenOnlyAddsPanics` shows that the two differ only where the as-written check panics.
