/**
 * Pinning for a growable vector `Vec<T>` (role `Items`): its `Items` and
 * `ItemsMut` capabilities, and the mutations a pinned vector still allows
 * because none of them moves a surviving element: push into spare capacity,
 * pop, truncate, and leaking the buffer as a pinned slice.
 */
module VecBridge {
  import opened Wrappers
  import opened Memory
  import Pinning
  import SliceBridge

  /** The capacity `Vec::push` grows a full buffer to (amortised doubling, at least 4). */
  function GrownCapacity(capacity: nat): nat
  {
    if 2 * capacity < 4 then 4 else 2 * capacity
  }

  /**
   * `alloc::vec::Vec`: a heap buffer whose first `len` cells hold the elements
   * and whose other cells are spare capacity.  A push into a full vector moves
   * every element into a bigger buffer; nothing else reallocates.
   */
  class Vec<T> {
    var buffer: array<Option<T>>
    var len: nat

    ghost predicate Valid()
      reads this, buffer
    {
      && AllLive(buffer[..], 0, len)
      && forall i :: len <= i < buffer.Length ==> buffer[i].None?
    }

    /** `Vec::capacity`. */
    function Capacity(): nat
      reads this
    {
      buffer.Length
    }

    /** `Vec::is_empty`. */
    predicate IsEmpty()
      reads this
    {
      len == 0
    }

    /** The vector's elements, in index order. */
    ghost function Contents(): seq<T>
      reads this, buffer
      requires Valid()
    {
      Live(buffer[..], 0, len)
    }

    /** The slice `Vec` dereferences to: its `len` elements, where they lie in the buffer. */
    function AsSlice(): (s: SliceRef<T>)
      reads this
    {
      SliceRef(buffer, 0, len)
    }

    /** A vector holding `contents` in a buffer of `capacity` cells. */
    constructor WithContents(contents: seq<T>, capacity: nat)
      requires |contents| <= capacity
      ensures Valid() && fresh(buffer)
      ensures Contents() == contents && Capacity() == capacity
    {
      buffer := new Option<T>[capacity](i => if 0 <= i < |contents| then Some(contents[i]) else None);
      len := |contents|;
    }

    /** `Vec::push`: appends, first moving everything into a bigger buffer when there is no spare capacity. */
    method Push(value: T)
      requires Valid()
      modifies this, buffer
      ensures Valid() && Contents() == old(Contents()) + [value]
      ensures forall i :: 0 <= i < old(len) ==> buffer[i] == old(buffer[i])
      ensures old(len) < old(Capacity()) ==> buffer == old(buffer)
      ensures old(len) == old(Capacity()) ==> fresh(buffer) && Capacity() == GrownCapacity(old(Capacity()))
    {
      if len == buffer.Length {
        var previous := buffer;
        buffer := new Option<T>[GrownCapacity(previous.Length)](i reads previous =>
          if 0 <= i < previous.Length then previous[i] else None);
      }
      buffer[len] := Some(value);
      len := len + 1;
    }

    /**
     * `Vec::truncate`: with `n < len`, shortens the vector to `n` and drops the
     * tail in place, in index order; otherwise does nothing.  The buffer stays.
     */
    method Truncate(n: nat) returns (ghost dropped: seq<Ref<T>>)
      requires Valid()
      modifies this, buffer
      ensures Valid() && buffer == old(buffer)
      ensures old(len) <= n ==> len == old(len) && buffer[..] == old(buffer[..]) && dropped == []
      ensures n < old(len) ==>
                && len == n
                && Contents() == old(Contents())[..n]
                && buffer[..] == Cleared(old(buffer[..]), n, old(len))
                && dropped == Refs(old(buffer[..]), Exclusive, n, old(len))
    {
      if len <= n {
        return [];
      }
      var tail := len;
      len := n;
      dropped := DropRange(buffer, n, tail);
    }
  }

  /** `Items for Vec<T>`: `Vec::iter`, the iterator of the slice the vector dereferences to. */
  method Items<T>(v: Vec<T>) returns (it: Iter<Ref<T>>)
    requires v.Valid()
    ensures fresh(it) && it.Valid() && it.Remaining() == SliceBridge.ItemRefs(v.AsSlice())
    ensures Values(it.Remaining()) == v.Contents()
  {
    it := SliceBridge.Items(v.AsSlice());
    RefsInOrder(v.buffer[..], Shared, 0, v.len);
  }

  /** `ItemsMut for Vec<T>`: `Vec::iter_mut`. */
  method ItemsMut<T>(v: Vec<T>) returns (it: Iter<Ref<T>>)
    requires v.Valid()
    ensures fresh(it) && it.Valid() && it.Remaining() == SliceBridge.ItemMutRefs(v.AsSlice())
    ensures Values(it.Remaining()) == v.Contents()
  {
    it := SliceBridge.ItemsMut(v.AsSlice());
    RefsInOrder(v.buffer[..], Exclusive, 0, v.len);
  }

  /** `ItemsPin::<role::Items, Vec<T>>::pin`: wraps the vector as it is. */
  function PinVec<T>(vec: Vec<T>, itemsUnpin: bool): (p: Pinning.ItemsPin<Vec<T>>)
    ensures Pinning.IntoInnerUnchecked(p) == vec && p.itemsUnpin == itemsUnpin
  {
    Pinning.NewUnchecked(vec, itemsUnpin)
  }

  /**
   * `push_pinned`: succeeds iff there is spare capacity, and then appends
   * without touching the buffer's other cells; otherwise hands `value` back
   * and changes nothing.  Either way the buffer is never reallocated.
   */
  method PushPinned<T>(p: Pinning.ItemsPin<Vec<T>>, value: T) returns (r: Result<(), T>)
    requires p.collection.Valid()
    modifies p.collection, p.collection.buffer
    ensures p.collection.Valid()
    ensures p.collection.buffer == old(p.collection.buffer)
    ensures r.Ok? <==> old(p.collection.len) < old(p.collection.Capacity())
    ensures r.Ok? ==> && p.collection.len == old(p.collection.len) + 1
                      && p.collection.Contents() == old(p.collection.Contents()) + [value]
                      && (forall i :: 0 <= i < old(p.collection.len) ==> p.collection.buffer[i] == old(p.collection.buffer[i]))
    ensures r.Err? ==> && r.error == value
                       && p.collection.len == old(p.collection.len)
                       && p.collection.buffer[..] == old(p.collection.buffer[..])
  {
    var v := p.collection;
    if v.len < v.Capacity() {
      v.Push(value);
      r := Ok(());
    } else {
      r := Err(value);
    }
  }

  /**
   * `pop_pinned`: fails, changing nothing, iff the vector is empty; otherwise
   * drops the last element in place and shortens the vector by one.
   */
  method PopPinned<T>(p: Pinning.ItemsPin<Vec<T>>) returns (ok: bool, ghost dropped: seq<Ref<T>>)
    requires p.collection.Valid()
    modifies p.collection, p.collection.buffer
    ensures p.collection.Valid() && p.collection.buffer == old(p.collection.buffer)
    ensures ok <==> old(p.collection.len) != 0
    ensures !ok ==> p.collection.len == old(p.collection.len)
                    && p.collection.buffer[..] == old(p.collection.buffer[..]) && dropped == []
    ensures ok ==> && p.collection.len == old(p.collection.len) - 1
                   && p.collection.Contents() == old(p.collection.Contents())[..old(p.collection.len) - 1]
                   && dropped == [Ref(Exclusive, old(p.collection.len) - 1, old(p.collection.Contents())[old(p.collection.len) - 1])]
  {
    var v := p.collection;
    if v.IsEmpty() {
      return false, [];
    }
    dropped := v.Truncate(v.len - 1);
    ok := true;
  }

  /**
   * `truncate_pinned`: forwards to `Vec::truncate`, so with `n < len` the
   * vector keeps its first `n` elements in their cells and drops the rest in
   * index order; otherwise nothing changes.
   */
  method TruncatePinned<T>(p: Pinning.ItemsPin<Vec<T>>, n: nat) returns (ghost dropped: seq<Ref<T>>)
    requires p.collection.Valid()
    modifies p.collection, p.collection.buffer
    ensures p.collection.Valid() && p.collection.buffer == old(p.collection.buffer)
    ensures old(p.collection.len) <= n ==>
              p.collection.len == old(p.collection.len) && p.collection.buffer[..] == old(p.collection.buffer[..]) && dropped == []
    ensures n < old(p.collection.len) ==>
              && p.collection.len == n
              && p.collection.Contents() == old(p.collection.Contents())[..n]
              && (forall i :: 0 <= i < n ==> p.collection.buffer[i] == old(p.collection.buffer[i]))
              && dropped == Refs(old(p.collection.buffer[..]), Exclusive, n, old(p.collection.len))
  {
    dropped := p.collection.Truncate(n);
  }

  /**
   * `leak`: gives up the vector for a pinned view of exactly its `len`
   * elements, in the same buffer, so nothing moves.
   */
  function Leak<T>(p: Pinning.ItemsPin<Vec<T>>): (view: Pinning.Pin<SliceRef<T>>)
    reads p.collection, p.collection.buffer
    requires p.collection.Valid()
    ensures view.pointer.cells == p.collection.buffer && view.pointer.lo == 0 && view.pointer.hi == p.collection.len
    ensures view.pointer.Valid() && view.pointer.Contents() == p.collection.Contents()
  {
    Pinning.Pin(p.collection.AsSlice())
  }

  /**
   * Pushing into a vector of capacity 4 holding two elements succeeds twice,
   * then hands the fifth value back, and popping drops the last element.
   */
  method PushPopExample()
  {
    var v := new Vec.WithContents(['A', 'B'], 4);
    var p := PinVec(v, false);
    var r := PushPinned(p, 'C');
    assert r.Ok? && v.Contents() == ['A', 'B', 'C'];
    r := PushPinned(p, 'D');
    assert r.Ok? && v.Contents() == ['A', 'B', 'C', 'D'];
    r := PushPinned(p, 'E');
    assert r == Err('E') && v.Contents() == ['A', 'B', 'C', 'D'];
    var ok, dropped := PopPinned(p);
    assert ok && dropped == [Ref(Exclusive, 3, 'D')] && v.Contents() == ['A', 'B', 'C'];
  }
}
