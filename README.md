# Allocation core of `alloc`: a Dafny model

This project models a slice of Rust's `alloc` and `core::alloc` libraries and proves what that code promises:

- **The `Allocator` contract and its provided methods.**
  - The heap is a map from block ids to the blocks that are *currently allocated*.
  - `allocate` and `deallocate` are the implementor's. The underlying allocator's answer to each request (refuse, or grant these bytes) is a parameter.
  - `allocate_zeroed`, `grow`, `grow_zeroed` and `shrink` are the default bodies: allocate a new block, copy a prefix, retire the old block.
  - The `&A` implementation forwards every call to the referenced allocator.
- **`vec::IntoIter`.** The state is a buffer of `cap` slots, with two cursors `ptr <= end` around the elements not yet handed out.
  - For zero-sized element types, `ptr` stays put and `end` counts the remaining elements.
  - Element destructors and the release of the buffer are recorded in a ghost event log. This is what lets the model state that `drop` drops each remaining element exactly once, and only then frees the buffer exactly once.
- **`VecDeque`.** The deque is a ring over a buffer of `cap` slots, described by `head` and `len`; `to_physical_idx(i)` is `wrap_index(head + i, cap)`.
  - The five `spec_extend` tiers append to it: generic, `TrustedLen`, `vec::IntoIter`, `&T` copied, and `slice::Iter` copy.
  - Its owning iterator pops from either end.
  - The two-segment wrapping copy (`copy_slice`) is proved to append its source to the logical contents.
- **`Vec`.**
  - The five `spec_extend` tiers (generic, `TrustedLen`, `IntoIter`, `&T` cloned, `slice::Iter` copy) each turn contents `old` into `old ++ items`.
  - The four `from_elem` tiers (generic `Clone`, `IsZero`, `i8`, `u8`) each produce exactly `n` copies of `elem`.

## How the model is built

- **Panics.** The "capacity overflow" panic is an `Outcome` value, `Fail(CapacityOverflow)`. Methods state the exact condition under which it happens and what the state is at that point. Unwinding is not modelled.
- **Buffers.** Buffers are `array<MaybeUninit<T>>`, so an uninitialised slot needs no value.
  - A vector's contents are the values of its first `len` slots.
  - A deque's contents are the `View` of its ring (module `Ring`).
- **Iterator sources.**
  - A general source, `HintedIter`, is its item sequence plus the `size_hint` lower bound it reports after each pull. Any bound is allowed, so a wrong hint only costs extra reservations.
  - A `TrustedLen` source is `Bounded(items)` (an exact hint) or `Unbounded` (upper bound `None`, longer than `usize::MAX`).
- **Helpers from files outside this model.** The helpers called from other files are written out with bodies and contracts, following how the code here uses them:
  - from `vec_deque/mod.rs`: `buffer_write`, `to_physical_idx`, `copy_slice`, `write_iter_wrapping`, `reserve`, `pop_front`, `pop_back`, `from_contiguous_raw_parts`;
  - from `vec/mod.rs` and `raw_vec.rs`: `reserve`, `extend_desugared`, `extend_trusted`, `append_elements`, `extend_with`, `with_capacity`, `with_capacity_zeroed`, `set_len`.
  - Growth uses the amortized rule `max(2·cap, len + additional, 4)`.
- **Integers.** `usize` is `nat` with `USIZE_MAX = 2^64 - 1`. The limit is written out wherever the code checks against it: `saturating_add`, and the checked length sum in `reserve`.
- **Deque head.** `into_vecdeque` on a `vec::IntoIter` whose cursor stands at the end of its buffer yields a deque with `head == cap`. The ring model therefore allows `head <= cap` and reads the front slot through `wrap_index`.

## Model

| member | source | states |
|---|---|---|
| Alloc.Allocator.Allocate | library/core/src/alloc/mod.rs:195-215 | a refusal returns `Err` and leaves the heap unchanged; a grant adds one new, previously unused block with the layout's alignment and size and the granted bytes, and leaves every other block as it was |
| Alloc.Allocator.Deallocate | library/core/src/alloc/mod.rs:255-264 | the block must be currently allocated and fit the layout; afterwards it is no longer currently allocated and no other block changes |
| Alloc.Allocator.WriteBytes | library/core/src/alloc/mod.rs:239 | `write_bytes` over a block: its first `count` bytes become `value` and the other bytes and blocks are unchanged |
| Alloc.Allocator.CopyBytes | library/core/src/alloc/mod.rs:327 | `copy_nonoverlapping` between two blocks: the destination's first `count` bytes become the source's first `count` bytes and nothing else changes |
| Alloc.Allocator.AllocateZeroed | library/core/src/alloc/mod.rs:236-241 | an `allocate` failure is passed on unchanged and nothing is written; on success the new block holds only zero bytes, over its whole actual length |
| Alloc.Allocator.Grow | library/core/src/alloc/mod.rs:308-332 | requires `new.size >= old.size` and that the old layout fits; if allocating fails, `Err` is returned and the old block stays allocated with unaltered contents; on success the new block's first `old.size` bytes are the old block's and the old block is retired |
| Alloc.Allocator.GrowZeroed | library/core/src/alloc/mod.rs:402-426 | like `grow`; on success the new block is the old block's first `old.size` bytes followed by zeros up to its actual length |
| Alloc.Allocator.Shrink | library/core/src/alloc/mod.rs:497-521 | requires `new.size <= old.size`; a failure leaves the old block allocated and unaltered; on success the new block's first `new.size` bytes are the old block's and the old block is retired |
| Alloc.AllocatorRef.Allocate | library/core/src/alloc/mod.rs:573-575 | the same effect on the referenced allocator's heap as its `allocate` |
| Alloc.AllocatorRef.AllocateZeroed | library/core/src/alloc/mod.rs:578-580 | the same effect as the referenced allocator's `allocate_zeroed` |
| Alloc.AllocatorRef.Deallocate | library/core/src/alloc/mod.rs:583-586 | the same effect as the referenced allocator's `deallocate` |
| Alloc.AllocatorRef.Grow | library/core/src/alloc/mod.rs:589-597 | the same effect as the referenced allocator's `grow` |
| Alloc.AllocatorRef.GrowZeroed | library/core/src/alloc/mod.rs:600-608 | the same effect as the referenced allocator's `grow_zeroed` |
| Alloc.AllocatorRef.Shrink | library/core/src/alloc/mod.rs:611-619 | the same effect as the referenced allocator's `shrink` |
| VecIntoIter.IntoIter.AsSlice | library/alloc/src/vec/into_iter.rs:78-80 | the remaining elements: `end - ptr` of them, and for sized types exactly the slots `buf[ptr..end]` |
| VecIntoIter.IntoIter.SizeHint | library/alloc/src/vec/into_iter.rs:242-249 | exactly `(len, Some(len))` with `len` the length of the remaining slice |
| VecIntoIter.IntoIter.IsEmpty | library/alloc/src/vec/into_iter.rs:383-385 | true iff nothing remains (`ptr == end`) |
| VecIntoIter.IntoIter.FromVec | library/alloc/src/vec/into_iter.rs:32-48 | the cursors span a vector's `len` elements from slot 0 of its buffer; `cap` is the buffer's length; nothing has been dropped yet |
| VecIntoIter.IntoIter.FromZstVec | library/alloc/src/vec/into_iter.rs:32-48 | for a zero-sized type: `cap` is `usize::MAX` and `end` encodes `ptr + len` |
| VecIntoIter.IntoIter.Next | library/alloc/src/vec/into_iter.rs:223-239 | `None` iff `ptr == end`; otherwise the front element, with the remaining slice one shorter at the front; sized types advance `ptr`, zero-sized types decrement `end` |
| VecIntoIter.IntoIter.NextBack | library/alloc/src/vec/into_iter.rs:339-353 | `None` iff `end == ptr`; otherwise `end` goes down by one and the result is the element in the slot at the new `end` |
| VecIntoIter.IntoIter.AdvanceBy | library/alloc/src/vec/into_iter.rs:252-270 | with `step = min(len, n)`: the first `step` elements are dropped, in order, after the cursor moved past them; `Err(step)` iff `step < n` |
| VecIntoIter.IntoIter.AdvanceBackBy | library/alloc/src/vec/into_iter.rs:356-374 | with `step = min(len, n)`: the last `step` elements are dropped after `end` moved; `ptr` is unchanged; `Err(step)` iff `step < n` |
| VecIntoIter.IntoIter.Count | library/alloc/src/vec/into_iter.rs:273-275 | the number of remaining elements; the iterator is consumed, so its destructor drops them and frees its own, unchanged buffer and capacity |
| VecIntoIter.IntoIter.NextChunk | library/alloc/src/vec/into_iter.rs:278-312 | with at least `N` remaining: the first `N` in order, with the cursor advanced by `N`; otherwise `Err` holding every remaining element, with the iterator left empty and nothing dropped |
| VecIntoIter.IntoIter.ForgetRemainingElements | library/alloc/src/vec/into_iter.rs:156-160 | `end := ptr`; `buf`, `cap`, `ptr` and the log are unchanged, so the buffer is still freed on drop |
| VecIntoIter.IntoIter.ForgetAllocationDropRemaining | library/alloc/src/vec/into_iter.rs:127-153 | `cap := 0` and `ptr == end` over an empty dangling buffer, and only then the snapshot of the remaining elements is dropped, each seeing the already-reset state |
| VecIntoIter.IntoIter.IntoVecDeque | library/alloc/src/vec/into_iter.rs:164-187 | the deque's contents are the remaining slice; a sized type's deque adopts the iterator's original buffer and capacity with `head` the original `ptr`; the iterator gives up its buffer without dropping or freeing anything |
| VecIntoIter.IntoIter.Drop | library/alloc/src/vec/into_iter.rs:454-486 | the log gains the drop of each remaining element in order, then exactly one release of `(buf, cap)` |
| VecIntoIter.DropEventsContent | library/alloc/src/vec/into_iter.rs:480-484 | dropping a run of elements destroys exactly those elements, in order, and releases no buffer |
| VecIntoIter.DroppedElemsAppend | library/alloc/src/vec/into_iter.rs:454-486 | the dropped elements and the release count of a concatenated log are those of its parts |
| VecIntoIter.NextTimes | library/alloc/src/vec/into_iter.rs:223-239 | `k` calls of `next` hand out the front of the remaining slice in order, and hand out fewer than `k` only when the slice is used up |
| VecIntoIter.IntoIter.TruncateTo | library/alloc/src/vec/into_iter.rs:358-365 | moving `end` back keeps exactly the front of the remaining slice and changes nothing else |
| VecIntoIter.NextThenDrop | library/alloc/src/vec/into_iter.rs:454-486 | after up to `k` `next` calls and the destructor, the elements handed out followed by the elements dropped are exactly the original remaining slice, and the buffer was released exactly once |
| Ring.WrapIndex | library/alloc/src/collections/vec_deque/spec_extend.rs:39 | below `cap` it is the identity, and below `2·cap` the physical index is in range |
| Ring.WrapIndexMod | library/alloc/src/collections/vec_deque/spec_extend.rs:39 | below `2·cap` the conditional subtraction is the remainder `logical mod cap` |
| Ring.CopySliceSlots | library/alloc/src/collections/vec_deque/spec_extend.rs:111-114 | the two-segment copy puts `src[j]` at `wrap_index(dst + j)` and leaves every slot outside that arc unchanged |
| Ring.CopySliceView | library/alloc/src/collections/vec_deque/spec_extend.rs:143-146 | copying `src` to the physical index of `len` and adding `|src|` to `len` appends `src` to the logical contents |
| Ring.AppendItems | library/alloc/src/collections/vec_deque/spec_extend.rs:82-84 | a wrapping write of `items` at the physical index of `len`, with `len` raised by `|items|`, appends `items` to the logical contents |
| Ring.PushView | library/alloc/src/collections/vec_deque/spec_extend.rs:39-41 | writing at the physical index of `len` and adding one appends that element |
| Ring.PopFrontView | library/alloc/src/collections/vec_deque/into_iter.rs:58-60 | the front element is at `head`; moving `head` one slot on drops exactly the front |
| Ring.PopBackView | library/alloc/src/collections/vec_deque/into_iter.rs:75-77 | the back element is at the physical index of `len - 1`; shortening drops exactly the back |
| VecDequeCore.VecDeque.FromContiguousRawParts | library/alloc/src/vec/into_iter.rs:179-185 | adopts the buffer with `head = start` and `len = end - start`; its contents are those slots |
| VecDequeCore.VecDeque.BufferWrite | library/alloc/src/collections/vec_deque/spec_extend.rs:39 | only the written slot changes |
| VecDequeCore.VecDeque.CopySlice | library/alloc/src/collections/vec_deque/spec_extend.rs:112 | the buffer becomes the two-segment wrapping copy of the slice at `dst` |
| VecDequeCore.VecDeque.WriteIterWrapping | library/alloc/src/collections/vec_deque/spec_extend.rs:82-84 | writes exactly `count` items wrapping at `cap` (`written == count`) and appends them to the contents |
| VecDequeCore.VecDeque.Reserve | library/alloc/src/collections/vec_deque/spec_extend.rs:46 | panics iff `len + additional` exceeds `usize::MAX`; otherwise capacity is at least `len + additional` and the contents are unchanged |
| VecDequeCore.VecDeque.PopFront | library/alloc/src/collections/vec_deque/into_iter.rs:58-60 | `None` on an empty deque; otherwise the logical front, with the contents shortened by one at the front |
| VecDequeCore.VecDeque.PopBack | library/alloc/src/collections/vec_deque/into_iter.rs:75-77 | `None` on an empty deque; otherwise the logical back, with the contents shortened by one at the back |
| DequeSpecExtend.PushUnchecked | library/alloc/src/collections/vec_deque/spec_extend.rs:31-42 | requires `len < capacity`; writes the element at `to_physical_idx(len)`, changes no other slot, adds one to `len`, and appends the element |
| DequeSpecExtend.CopyToBack | library/alloc/src/collections/vec_deque/spec_extend.rs:111-114 | with room reserved, the `copy_slice` plus the `len` update append the slice |
| DequeSpecExtend.PushWhileRoom | library/alloc/src/collections/vec_deque/spec_extend.rs:50-57 | pushes the source's next items in order while the buffer has a free slot and stops with a full buffer unless the source ran out first |
| DequeSpecExtend.SpecExtend | library/alloc/src/collections/vec_deque/spec_extend.rs:23-60 | the same contents as `push_back` of every item in order; every push is preceded by a reserve or the `len < capacity` check; on the panic the items pulled before the failing reserve are appended and `len + lower + 1` exceeds `usize::MAX` |
| DequeSpecExtend.SpecExtendTrusted | library/alloc/src/collections/vec_deque/spec_extend.rs:70-98 | succeeds iff the upper bound is `Some` and fits; then the items are appended with `written == additional`; no upper bound panics without falling back to the generic tier |
| DequeSpecExtend.SpecExtendVecIntoIter | library/alloc/src/collections/vec_deque/spec_extend.rs:107-116 | appends the iterator's remaining slice (`len` grows by its length); the source then drops nothing and frees its original buffer once; on the panic it drops its elements and frees that buffer |
| DequeSpecExtend.SpecExtendRefs | library/alloc/src/collections/vec_deque/spec_extend.rs:127-129 | the same as extending with the copied values, through the tier the copying adapter selects: a plain source panics only at the generic tier's hint-driven overflow, after the items pulled before it; a `TrustedLen` one exactly when its length is unbounded or overflows, with the contents unchanged |
| DequeSpecExtend.SpecExtendSlice | library/alloc/src/collections/vec_deque/spec_extend.rs:139-147 | appends the slice in order, wrapping at `cap`; panics iff `len + |slice|` exceeds `usize::MAX` |
| DequeIntoIter.IntoIter.New | library/alloc/src/collections/vec_deque/into_iter.rs:31-33 | the iterator owns exactly the given deque |
| DequeIntoIter.IntoIter.IntoVecDeque | library/alloc/src/collections/vec_deque/into_iter.rs:35-37 | hands back the owned deque itself |
| DequeIntoIter.NewThenIntoVecDeque | library/alloc/src/collections/vec_deque/into_iter.rs:31-37 | round trip: `into_vecdeque(new(d))` is `d`, with the same contents |
| DequeIntoIter.IntoIter.Next | library/alloc/src/collections/vec_deque/into_iter.rs:58-60 | `pop_front`: the logical front, with the deque shortened by one; `None` forever once empty |
| DequeIntoIter.IntoIter.NextBack | library/alloc/src/collections/vec_deque/into_iter.rs:75-77 | `pop_back`: the logical back, with the deque shortened by one |
| DequeIntoIter.IntoIter.SizeHint | library/alloc/src/collections/vec_deque/into_iter.rs:63-66 | exactly `(len, Some(len))` |
| DequeIntoIter.IntoIter.IsEmpty | library/alloc/src/collections/vec_deque/into_iter.rs:85-87 | true iff the inner deque is empty |
| DequeIntoIter.StepConserves | library/alloc/src/collections/vec_deque/into_iter.rs:58-77 | one `next` or `next_back` moves one element from what is left to the front pulls or the back pulls and loses nothing |
| DequeIntoIter.DrainConserves | library/alloc/src/collections/vec_deque/into_iter.rs:58-77 | any interleaving of `next` and `next_back` loses, duplicates and reorders nothing: front pulls, then what is left, then the back pulls reversed, give the original sequence |
| DequeIntoIter.DrainRest | library/alloc/src/collections/vec_deque/into_iter.rs:58-77 | front pulls yield a prefix in order, and what is left is the slice between the front and back pulls |
| DequeIntoIter.AllBack | library/alloc/src/collections/vec_deque/into_iter.rs:75-77 | pulling only from the back, at least as often as there are elements, yields the sequence reversed |
| DequeIntoIter.DrainWith | library/alloc/src/collections/vec_deque/into_iter.rs:58-77 | running any sequence of pulls on the iterator yields exactly what the pure `Drain` model says |
| VecCore.Vec.WithCapacity | library/alloc/src/vec/spec_from_elem.rs:31 | an empty vector with capacity exactly `n` |
| VecCore.Vec.FromZeroedBuffer | library/alloc/src/vec/spec_from_elem.rs:48-50 | a zeroed buffer with `len = n` holds `n` copies of the value represented by zero bytes |
| VecCore.Vec.SetLen | library/alloc/src/vec/spec_from_elem.rs:74 | the length becomes `n` over slots the caller has initialised |
| VecCore.Vec.ExtendDesugared | library/alloc/src/vec/spec_extend.rs:18-20 | appends the items in iteration order; the panic leaves the items pulled before it appended, with the buffer full |
| VecCore.Vec.ExtendTrusted | library/alloc/src/vec/spec_extend.rs:28-30 | one reservation, then appends the items; no upper bound panics at once; the panic leaves the contents unchanged |
| VecCore.Vec.AppendElements | library/alloc/src/vec/spec_extend.rs:37 | appends the slice, so `len` grows by its length |
| VecCore.Vec.ExtendWith | library/alloc/src/vec/spec_from_elem.rs:32 | appends `n` copies of the value |
| VecSpecExtend.SpecExtend | library/alloc/src/vec/spec_extend.rs:18-20 | contents `old` become `old ++ items` in iteration order; the panic comes only from the reserve for the `pulled`-th item with the vector full and `len + lower + 1` beyond `usize::MAX`, and then the items before it are appended |
| VecSpecExtend.SpecExtendTrusted | library/alloc/src/vec/spec_extend.rs:28-30 | contents `old` become `old ++ items`; panics iff there is no upper bound, or growth is needed and the total exceeds `usize::MAX` |
| VecSpecExtend.SpecExtendIntoIter | library/alloc/src/vec/spec_extend.rs:35-40 | appends the iterator's remaining slice; the source is left with `ptr == end`, so its destructor drops nothing and frees its original buffer once; on the panic it drops its elements and frees that buffer |
| VecSpecExtend.SpecExtendRefs | library/alloc/src/vec/spec_extend.rs:49-51 | the same as extending with the cloned values: a plain source panics only at the generic tier's hint-driven overflow, after the items pulled before it; a `TrustedLen` one exactly when the growth it needs overflows, with the contents unchanged |
| VecSpecExtend.SpecExtendSlice | library/alloc/src/vec/spec_extend.rs:59-62 | appends the slice in order |
| VecFromElem.ByteRoundTrip | library/alloc/src/vec/spec_from_elem.rs:73 | the byte written represents the element itself |
| VecFromElem.ZeroByte | library/alloc/src/vec/spec_from_elem.rs:68-69 | the zero byte represents exactly `0i8` |
| VecFromElem.WriteBytes | library/alloc/src/vec/spec_from_elem.rs:73 | the first `n` slots hold the element and the rest are untouched |
| VecFromElem.FromElem | library/alloc/src/vec/spec_from_elem.rs:23-35 | `n` copies of `elem`, with capacity `n` |
| VecFromElem.FromElemIsZero | library/alloc/src/vec/spec_from_elem.rs:38-55 | the zeroed path and the generic path both give `n` copies of `elem`, with capacity `n` |
| VecFromElem.FromElemI8 | library/alloc/src/vec/spec_from_elem.rs:57-78 | the zeroed path (the element the zero byte represents is `elem`) and the `write_bytes` path both give `n` copies of `elem`, the same as the generic tier |
| VecFromElem.FromElemU8 | library/alloc/src/vec/spec_from_elem.rs:80-101 | the zeroed path and the `write_bytes` path both give `n` copies of `elem`, the same as the generic tier |
| Common.SaturatingAddCovers | library/alloc/src/collections/vec_deque/spec_extend.rs:45-48 | the saturated sum is at least either operand, so `lower.saturating_add(1)` reserves room for at least one element whatever the hint |
| Common.TrustedHintExact | library/alloc/src/collections/vec_deque/spec_extend.rs:72-79 | a `TrustedLen` hint has an upper bound exactly when the source is bounded, and then both bounds are its number of items |

## Left out

- Co-allocation is not modelled: the `co_*` methods, `CoAllocMetaBase`, `PtrAndMeta`, `SliceAndMeta` and the `COOP_PREFERRED`/`CO_ALLOC_PREF` parameters. The metadata slot count is fixed at zero, and `co_allocate`/`co_deallocate` only panic.
- `library/alloc/src/macros.rs` and `library/std/src/sys/hermit/thread_local_dtor.rs` are not modelled. The macros are syntax sugar; the other file is thread-local foreign-call plumbing.
- The `Clone` of `vec::IntoIter` outside tests never returns (`loop {}`), so it is not modelled.
- `__iterator_get_unchecked`, the marker traits (`Send`, `Sync`, `FusedIterator`, `TrustedLen`, `InPlaceIterable`, `SourceIter`, `NonDrop`, `TrustedRandomAccessNoCoerce`) and `Debug` are not modelled. They carry no behaviour beyond the caller's unsafe contract.
- `as_mut_slice`, `as_raw_mut_slice` and `allocator` are not modelled. They hand out aliases, not values. `as_ref` is `as_slice`.
- `by_ref` is not modelled. It is the identity on a reference.
- Real addresses are not modelled: pointer provenance, alignment, byte offsets and `Layout` size arithmetic. Slots are indices and blocks are ids. The `isize::MAX` layout limit inside `reserve` and `with_capacity` is not modelled either.
- Allocation failure inside `reserve` (`handle_alloc_error`) is not modelled. Only the "capacity overflow" panic is.
- Unwinding out of a panic, or out of an element's destructor or `clone`, is not modelled.
- Some helpers live in files that are not part of this model: `vec_deque/mod.rs`, `vec/mod.rs` and `raw_vec.rs`. Their bodies here follow their use.
  - `VecDequeCore.VecDeque.Reserve`: on growth it relinearizes into a fresh buffer with `head == 0`. The unseen `handle_capacity_increase` instead moves one segment and keeps `head`. Both preserve the logical contents, and only the contents are used.
  - The growth rule's minimum non-zero capacity is fixed at 4. The real one depends on the element size.
- `VecIntoIter.IntoIter.IntoVecDeque`: for a zero-sized type the deque gets a fresh buffer of `len` slots, not capacity `usize::MAX` without memory.
- `VecIntoIter.IntoIter.FromZstVec`: the zero-sized cursor arithmetic is unbounded. The real `end` is an address that may wrap around.
- `VecFromElem.FromElem`: the capacity is stated as exactly `n` for sized types. A zero-sized type's capacity of `usize::MAX` is not modelled.
- `DequeSpecExtend.SpecExtendRefs` and `VecSpecExtend.SpecExtendRefs`: a copy or clone is taken to equal its original. Side effects of a user `Clone` are not modelled.
- `VecDequeCore.VecDeque.PopFront`: it reads the front through `wrap_index(head)`, so that a deque with `head == cap` (from `into_vecdeque` of a fully advanced iterator) is handled. The deque's own `pop_front` lives in `vec_deque/mod.rs`, which is not part of this model, so this choice is not checked against it.
- `HintedIter` sources are finite, and `next` has no side effects beyond yielding. Infinite iterators appear only as the `Unbounded` `TrustedLen` source.
