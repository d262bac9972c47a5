/**
 * The pinning wrapper `ItemsPin` and the pinned-iterator adapter `PinIter`.
 *
 * `ItemsPin` holds exactly one collection and witnesses that its items will not
 * move while it is wrapped.  Whether the item type is `Unpin` (moving its
 * items is harmless) is a fact about the type in Rust; here it travels with
 * the wrapper as the flag `itemsUnpin`, and every operation the Rust code
 * bounds by `C::Item: Unpin` requires it.
 */
module Pinning {
  import opened Wrappers
  import opened Memory

  /** `core::pin::Pin`: a pointer whose referent is promised not to move. */
  datatype Pin<P> = Pin(pointer: P)

  /** `ItemsPin<role::Items, C>`: one collection and nothing else, plus the type-level `Unpin` fact. */
  datatype ItemsPin<C> = ItemsPin(collection: C, itemsUnpin: bool)

  /** `ItemsPin::new_unchecked`: the caller vouches for the pinning invariant; the collection is stored as is. */
  function NewUnchecked<C>(collection: C, itemsUnpin: bool): (p: ItemsPin<C>)
    ensures IntoInnerUnchecked(p) == collection && p.itemsUnpin == itemsUnpin
  {
    ItemsPin(collection, itemsUnpin)
  }

  /** `ItemsPin::into_inner_unchecked`: ends the guarantee and hands the collection back. */
  function IntoInnerUnchecked<C>(p: ItemsPin<C>): (collection: C)
    ensures ItemsPin(collection, p.itemsUnpin) == p
  {
    p.collection
  }

  /**
   * `ItemsPin::new`: only for `Unpin` items, so pinning them promises nothing
   * that could break.  `itemsUnpin` is the `C::Item: Unpin` bound, which the
   * caller must establish.
   */
  function New<C>(collection: C, ghost itemsUnpin: bool): (p: ItemsPin<C>)
    requires itemsUnpin
    ensures p.itemsUnpin && IntoInner(p) == collection
  {
    NewUnchecked(collection, true)
  }

  /** `ItemsPin::into_inner`: unwrapping is safe when the items are `Unpin`. */
  function IntoInner<C>(p: ItemsPin<C>): (collection: C)
    requires p.itemsUnpin
    ensures NewUnchecked(collection, true) == p
  {
    p.collection
  }

  /** `ItemsPin::inner_ref`, bounded by `Unpin` like the rest of its `impl` block. */
  function InnerRef<C>(p: ItemsPin<C>): (collection: C)
    requires p.itemsUnpin
    ensures NewUnchecked(collection, p.itemsUnpin) == p
  {
    p.collection
  }

  /** `ItemsPin::inner_mut`: unrestricted access to the collection, so only for `Unpin` items. */
  function InnerMut<C>(p: ItemsPin<C>): (collection: C)
    requires p.itemsUnpin
    ensures NewUnchecked(collection, p.itemsUnpin) == p
  {
    p.collection
  }

  /** `ItemsPin::inner_ref_unchecked`. */
  function InnerRefUnchecked<C>(p: ItemsPin<C>): (collection: C)
    ensures NewUnchecked(collection, p.itemsUnpin) == p
  {
    p.collection
  }

  /** `ItemsPin::inner_mut_unchecked`. */
  function InnerMutUnchecked<C>(p: ItemsPin<C>): (collection: C)
    ensures NewUnchecked(collection, p.itemsUnpin) == p
  {
    p.collection
  }

  /** `Deref for ItemsPin`: read access to the collection, whatever the items are. */
  function Deref<C>(p: ItemsPin<C>): (collection: C)
    ensures NewUnchecked(collection, p.itemsUnpin) == p
  {
    p.collection
  }

  /** `DerefMut for ItemsPin`: write access could move items, so it exists only for `Unpin` items. */
  function DerefMut<C>(p: ItemsPin<C>): (collection: C)
    requires p.itemsUnpin
    ensures NewUnchecked(collection, p.itemsUnpin) == p
  {
    p.collection
  }

  /** Unwrapping a freshly pinned collection, checked or unchecked, gives it back unchanged. */
  lemma RoundTrip<C>(collection: C, itemsUnpin: bool)
    ensures IntoInner(New(collection, true)) == collection
    ensures IntoInnerUnchecked(NewUnchecked(collection, itemsUnpin)) == collection
    ensures NewUnchecked(IntoInnerUnchecked(NewUnchecked(collection, itemsUnpin)), itemsUnpin)
         == NewUnchecked(collection, itemsUnpin)
  {
  }

  /** Each item wrapped in `Pin`, in the same order: what a `PinIter` yields. */
  function PinAll<P>(xs: seq<P>): seq<Pin<P>>
  {
    if xs == [] then [] else [Pin(xs[0])] + PinAll(xs[1..])
  }

  /** The pointers inside a sequence of `Pin`s. */
  function UnpinAll<P>(ys: seq<Pin<P>>): seq<P>
  {
    if ys == [] then [] else [ys[0].pointer] + UnpinAll(ys[1..])
  }

  /** Pinning a sequence keeps its length, and the item at each position is the source item, wrapped. */
  lemma {:induction false} PinAllPointwise<P>(xs: seq<P>)
    ensures |PinAll(xs)| == |xs|
    ensures forall i :: 0 <= i < |xs| ==> PinAll(xs)[i] == Pin(xs[i])
  {
    if xs != [] {
      PinAllPointwise(xs[1..]);
    }
  }

  /** Unwrapping what a `PinIter` yields gives back exactly what its source yields. */
  lemma {:induction false} UnpinAllPinAll<P>(xs: seq<P>)
    ensures UnpinAll(PinAll(xs)) == xs
  {
    if xs != [] {
      UnpinAllPinAll(xs[1..]);
      assert xs == [xs[0]] + xs[1..];
    }
  }

  /** `PinIter`: re-emits each item of an inner iterator wrapped in `Pin`. */
  class PinIter<P> {
    const iter: Iter<P>

    /** `PinIter::new`: sound because the items' targets are `Unpin`. */
    constructor New(iter: Iter<P>, ghost targetUnpin: bool)
      requires targetUnpin
      ensures this.iter == iter
    {
      this.iter := iter;
    }

    /** `PinIter::new_unchecked`: the caller vouches that every item may be pinned. */
    constructor NewUnchecked(iter: Iter<P>)
      ensures this.iter == iter
    {
      this.iter := iter;
    }

    /** `Iterator::next for PinIter`: one step of the inner iterator, its item wrapped in `Pin`. */
    method Next() returns (r: Option<Pin<P>>)
      requires iter.Valid()
      modifies iter
      ensures iter.Valid()
      ensures r.None? <==> old(iter.Remaining()) == []
      ensures r.None? ==> iter.Remaining() == []
      ensures r.Some? ==> r.value == Pin(old(iter.Remaining())[0])
                          && iter.Remaining() == old(iter.Remaining())[1..]
    {
      var item := iter.Next();
      match item
      case None => r := None;
      case Some(x) => r := Some(Pin(x));
    }

    /** Runs the adapter to exhaustion: it yields every item of its source, pinned, in order. */
    method Drain() returns (ys: seq<Pin<P>>)
      requires iter.Valid()
      modifies iter
      ensures iter.Valid() && iter.Remaining() == []
      ensures ys == PinAll(old(iter.Remaining()))
    {
      ys := [];
      var r := Next();
      while r.Some?
        invariant iter.Valid()
        invariant r.None? ==> iter.Remaining() == []
        invariant r.Some? ==> old(iter.Remaining()) != []
        invariant ys + (if r.Some? then [r.value] else []) + PinAll(iter.Remaining())
               == PinAll(old(iter.Remaining()))
        decreases |iter.Remaining()| + (if r.Some? then 1 else 0)
      {
        ghost var rest := iter.Remaining();
        ys := ys + [r.value];
        r := Next();
        if r.Some? {
          assert rest != [] && PinAll(rest) == [Pin(rest[0])] + PinAll(rest[1..]);
        }
      }
    }
  }

  /**
   * `Items for ItemsPin`: forwards to the collection's own `Items` capability,
   * given here as the sequence of references `items` maps a collection to.
   */
  method Items<C, P>(p: ItemsPin<C>, items: C ~> seq<P>) returns (it: Iter<P>)
    requires items.requires(p.collection)
    ensures fresh(it) && it.Valid() && it.Remaining() == items(p.collection)
  {
    it := new Iter(items(p.collection));
  }

  /** `ItemsMut for ItemsPin`: forwards to the collection's own `ItemsMut` capability. */
  method ItemsMut<C, P>(p: ItemsPin<C>, itemsMut: C ~> seq<P>) returns (it: Iter<P>)
    requires itemsMut.requires(p.collection)
    ensures fresh(it) && it.Valid() && it.Remaining() == itemsMut(p.collection)
  {
    it := new Iter(itemsMut(p.collection));
  }

  /** `ItemsPinned for ItemsPin`: the collection's `items`, passed through `PinIter::new_unchecked`. */
  method ItemsPinned<C, P>(p: ItemsPin<C>, items: C ~> seq<P>) returns (pinned: PinIter<P>)
    requires items.requires(p.collection)
    ensures fresh(pinned) && fresh(pinned.iter)
    ensures pinned.iter.Valid() && pinned.iter.Remaining() == items(p.collection)
  {
    var it := new Iter(items(p.collection));
    pinned := new PinIter.NewUnchecked(it);
  }

  /** `ItemsPinnedMut for ItemsPin`: the collection's `items_mut`, passed through `PinIter::new_unchecked`. */
  method ItemsPinnedMut<C, P>(p: ItemsPin<C>, itemsMut: C ~> seq<P>) returns (pinned: PinIter<P>)
    requires itemsMut.requires(p.collection)
    ensures fresh(pinned) && fresh(pinned.iter)
    ensures pinned.iter.Valid() && pinned.iter.Remaining() == itemsMut(p.collection)
  {
    var it := new Iter(itemsMut(p.collection));
    pinned := new PinIter.NewUnchecked(it);
  }
}
