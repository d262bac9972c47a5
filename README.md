# napje, modelled in Dafny

napje lets a caller pin the items of a collection, so that they never move in memory, while the collection value itself stays freely movable. `ItemsPin<R, C>` wraps one collection `C`. Its existence witnesses that no item reachable through it changes address. From any collection that can iterate its items, it derives iteration over pinned handles (`Pin<&T>`, `Pin<&mut T>`) through the adapter `PinIter`. Two bridges add the mutations that stay sound after pinning:
- a pinned `&'static mut [T]` can drop elements in place (`truncate`, `drop_in_place`);
- a pinned `Vec<T>` can `push_pinned` into spare capacity, `pop_pinned`, `truncate_pinned` and `leak` itself as a pinned slice.

The model is five modules:

- `Wrappers` (wrappers.dfy): `Option` and `Result`.
- `Memory` (memory.dfy): the standard-library layer the bridges stand on.
  - A heap allocation is an `array<Option<T>>`. `Some(v)` is a live element. `None` is an uninitialised cell: spare capacity, or an element already dropped in place.
  - An element's address is its cell index. "Does not move" means it stays in the same cell of the same allocation, with the same value.
  - `SliceRef` is a `&mut [T]` view `[lo, hi)` of one allocation.
  - `Ref` is a shared or exclusive reference: access, address and value.
  - `Refs` is what `iter`/`iter_mut` hand out.
  - `DropRange` is the in-place drop loop.
  - `Iter` is a forward iterator: a sequence plus a cursor.
- `Pinning` (pinning.dfy, `src/lib.rs`):
  - the datatype `ItemsPin` (the collection, plus whether the item type is `Unpin`), with its checked and unchecked constructors and unwrappers, `Deref` and `DerefMut`;
  - `Pin`, the class `PinIter`, and the four capability delegations.
- `SliceBridge` (slice_bridge.dfy, `src/std_impls/slice.rs`): `Items`/`ItemsMut` for slices, `pin`, `truncate` and `drop_in_place`.
- `VecBridge` (vec_bridge.dfy, `src/std_impls/vec.rs`): a class `Vec` (buffer, `len`, and a push that reallocates when full); `Items`/`ItemsMut` for vectors; `pin`, `push_pinned`, `pop_pinned`, `truncate_pinned` and `leak`.

Dropping is tracked by a ghost drop log. Every operation that drops elements returns the sequence of exclusive references it dropped through, in order. A dropped cell becomes `None`, and dropping requires a live cell, so no element can be dropped twice.

Rust's trait dispatch has no counterpart here. The wrapper's delegations take the collection's capability as a function from the collection to the sequence of items it yields. A panic is an `Err(Panic(...))` result.

Two points the code settles that its documentation leaves open:
- `truncate` drops the whole prefix, then the whole suffix, each in index order (src/std_impls/slice.rs:47-48). The model proves that order.
- `inner_ref` sits in the `impl` block bounded by `C::Item: Unpin` (src/lib.rs:54-58), so `InnerRef` requires the `Unpin` flag too.

## Model

| member | source | states |
|---|---|---|
| `Pinning.NewUnchecked` | src/lib.rs:114-119 | the wrapper stores the collection as is; unwrapping it unchecked gives that collection back |
| `Pinning.IntoInnerUnchecked` | src/lib.rs:127-129 | the wrapper holds nothing but the collection (and the type-level `Unpin` fact): rebuilding it from the result gives the same wrapper |
| `Pinning.New` | src/lib.rs:54-62 | the checked constructor exists only under the `C::Item: Unpin` bound (its precondition), marks the items `Unpin`, and `into_inner` of the result is the original collection |
| `Pinning.IntoInner` | src/lib.rs:69-71 | only for `Unpin` items; re-wrapping the result with `new` gives the same wrapper |
| `Pinning.InnerRef` | src/lib.rs:83-85 | only for `Unpin` items; yields exactly the wrapped collection |
| `Pinning.InnerMut` | src/lib.rs:97-99 | only for `Unpin` items; yields exactly the wrapped collection |
| `Pinning.InnerRefUnchecked` | src/lib.rs:149-151 | yields exactly the wrapped collection, whatever the items |
| `Pinning.InnerMutUnchecked` | src/lib.rs:171-173 | yields exactly the wrapped collection, whatever the items |
| `Pinning.Deref` | src/lib.rs:286-292 | read access always yields exactly the wrapped collection |
| `Pinning.DerefMut` | src/lib.rs:294-301 | mutable access exists only when the items are `Unpin`, and yields exactly the wrapped collection |
| `Pinning.RoundTrip` | src/lib.rs:59-71 | `into_inner(new(c)) == c`, `into_inner_unchecked(new_unchecked(c)) == c`, and re-wrapping the result gives the same wrapper |
| `Pinning.PinAllPointwise` | src/lib.rs:226-239 | the pinned sequence has the source's length, and position i holds source item i wrapped in `Pin` |
| `Pinning.UnpinAllPinAll` | src/lib.rs:234-238 | unwrapping the pinned items gives back exactly the source items, in order |
| `Pinning.PinIter.New` | src/lib.rs:211-216 | the checked adapter needs `Unpin` targets and holds exactly the given iterator |
| `Pinning.PinIter.NewUnchecked` | src/lib.rs:221-223 | the unchecked adapter holds exactly the given iterator |
| `Pinning.PinIter.Next` | src/lib.rs:234-238 | returns `None` iff the inner iterator is exhausted (and it stays exhausted); otherwise returns the inner iterator's next item wrapped in `Pin` and advances it by exactly one |
| `Pinning.PinIter.Drain` | src/lib.rs:226-239 | draining the adapter yields `PinAll` of everything its source had left: same items, same order, same count |
| `Pinning.Items` | src/lib.rs:248-250 | the wrapper's `items` is a fresh iterator over exactly the collection's own `items` sequence |
| `Pinning.ItemsMut` | src/lib.rs:270-272 | the wrapper's `items_mut` is a fresh iterator over exactly the collection's own `items_mut` sequence |
| `Pinning.ItemsPinned` | src/lib.rs:259-261 | `items_pinned` is a `PinIter` whose source iterates exactly the collection's `items` sequence |
| `Pinning.ItemsPinnedMut` | src/lib.rs:281-283 | `items_pinned_mut` is a `PinIter` whose source iterates exactly the collection's `items_mut` sequence |
| `Memory.RefsVisitOnce` | src/std_impls/slice.rs:54-56 | walking the cells `[lo, hi)` visits every address inside the range exactly once and none outside it |
| `Memory.RefsInOrder` | src/std_impls/slice.rs:16-19 | walking the cells `[lo, hi)` goes in strictly increasing address order and sees the range's live values |
| `Memory.DropRange` | src/std_impls/slice.rs:52-58 | the loop drops every element of `[lo, hi)` in place: those cells become uninitialised, all others are unchanged, and the log is the exclusive references to `lo, ..., hi-1` in order |
| `SliceBridge.ItemsVisitEachOnce` | src/std_impls/slice.rs:11-27 | a slice's `items` and `items_mut` yield its elements in index order, each exactly once, at its own address |
| `SliceBridge.Items` | src/std_impls/slice.rs:16-19 | `items` of a slice is a fresh iterator over the shared references to its elements |
| `SliceBridge.ItemsMut` | src/std_impls/slice.rs:24-26 | `items_mut` of a slice is a fresh iterator over the exclusive references to its elements |
| `SliceBridge.PinSlice` | src/std_impls/slice.rs:31-33 | pinning a slice keeps the very same view, so the contents are unchanged |
| `SliceBridge.TruncateDropsOutsideOnce` | src/std_impls/slice.rs:45-48 | `truncate` drops every element of the view before `start` or from `end` on exactly once, and no element inside the range |
| `SliceBridge.TruncateDropOrder` | src/std_impls/slice.rs:47-48 | `truncate` drops in strictly increasing address order (the whole prefix, then the whole suffix), each drop seeing that element's value |
| `SliceBridge.TruncateKeepsRange` | src/std_impls/slice.rs:45-49 | after the two drops, the cells of `[start, end)` still hold their elements, which are `old[start..end]` |
| `SliceBridge.DropInPlace` | src/std_impls/slice.rs:52-58 | drops every element of the view exactly once, in index order, leaving the rest of the allocation untouched |
| `SliceBridge.Truncate` | src/std_impls/slice.rs:40-50 | panics iff `start > end` or `end > len`, and then drops nothing; otherwise drops the elements outside the range (log `TruncateLog`) and returns the pinned view `[start, end)` of the same cells, whose contents are `old[start..end]` |
| `VecBridge.Items` | src/std_impls/vec.rs:18-20 | `items` of a vector iterates shared references to its elements in index order |
| `VecBridge.ItemsMut` | src/std_impls/vec.rs:26-28 | `items_mut` of a vector iterates exclusive references to its elements in index order |
| `VecBridge.PinVec` | src/std_impls/vec.rs:33-35 | pinning a vector wraps that very vector unchecked; nothing is copied or moved |
| `VecBridge.PushPinned` | src/std_impls/vec.rs:40-47 | succeeds iff `len < capacity`; on success `len` grows by one, the new last element is `value` and every earlier cell is unchanged; on failure returns `Err(value)` and the vector is unchanged; never reallocates the buffer |
| `VecBridge.PopPinned` | src/std_impls/vec.rs:49-54 | returns `false` iff the vector is empty, and then changes nothing; otherwise `len` drops by one, the prefix is kept and exactly the former last element is dropped; same buffer |
| `VecBridge.TruncatePinned` | src/std_impls/vec.rs:56-58 | a no-op when `n >= len`; otherwise the contents become `old[..n]` in the same cells, and the elements from `n` to `len - 1` are each dropped once, in index order; same buffer |
| `VecBridge.Leak` | src/std_impls/vec.rs:61-63 | the pinned view lies in the vector's own buffer and covers exactly its `len` elements, with the same contents |

## Left out

- Role tags (`role::Items`, `Keys`, `Values`, `Entries`, src/lib.rs:20-36): they exist only at the type level. The wrapper and its capability delegations in src/lib.rs are generic over any `R: Role` (src/lib.rs:54, 102, 241, 253, 264, 275). The two bridges implement only `role::Items`. The model drops the role parameter, which does not change any operation's behaviour.
- `new_ref`, `new_mut`, `new_ref_unchecked`, `new_mut_unchecked` (src/lib.rs:74-76, 88-90, 139-141, 161-163): these reinterpret a pointer to `C` as a pointer to `ItemsPin<C>`, which is a layout fact (`repr(transparent)`). Wrapping by value is modelled by `NewUnchecked`.
- The `Pin<C>` capability bridge (src/std_impls/pin.rs) is not part of this model. It only delegates through pointer casts to a guarantee established outside the library.
- Lifetimes and moves: `truncate`, `drop_in_place` and `leak` consume their receiver in Rust. The model cannot stop a caller from reusing the old value. What it does enforce is that a dropped element can never be dropped again.
- Writes through the `&mut T` handed out by `items_mut`: the model hands out the exclusive references and records them, but does not model assignments through them. The iterators are snapshots of the elements when they were created.
- Deallocation: when `Vec::push` reallocates, the model does not free the old buffer. A leaked buffer is never freed either.
- `GrownCapacity`: the model grows a full `Vec` to `max(2 * capacity, 4)`. The standard library's minimum non-zero capacity depends on the element size. The bridges never reach this path.
- `usize` is modelled as `nat`. No operation here can overflow, because lengths never exceed the capacity of an existing allocation.
- `PinIter` is modelled over one kind of source iterator: a finite sequence with a cursor, which is what every `Items` implementation here returns. Arbitrary or infinite iterators are not modelled.
- The traits derived on `ItemsPin` (src/lib.rs:45) are not modelled, apart from the structural equality every Dafny datatype has.
- Pinning.New: `Unpin` is a fact about the item type, but here it is a flag on the wrapper value. `New` requires the caller to establish it. Nothing ties the flag to the items, though, so a caller can pass `true` for any collection. Rust's type checker rules that out.
- Pinning.Deref, Pinning.InnerRef, Pinning.InnerRefUnchecked, Pinning.DerefMut, Pinning.InnerMut, Pinning.InnerMutUnchecked: the model does not separate a shared borrow (`&C`) of the collection from an exclusive one (`&mut C`). All six return the same collection object. The model does not express that a shared borrow is read-only, so it cannot rule out calling a mutating method such as `Vec.Push` on what `Deref` returns. Writes to `*inner_mut(p)` or `*deref_mut(p)`, and replacing the collection through them, are not modelled.
- A panicking element destructor: `DropRange` assumes each element's `Drop` returns. In Rust, a panic in one `ManuallyDrop::drop` leaves the loop at src/std_impls/slice.rs:54-56 with the rest of the range undropped. In `truncate` it also means the suffix at src/std_impls/slice.rs:48 is never dropped.
- The README doctest module (src/lib.rs:13-16).
