/**
 * Pinning for a fixed-length slice `[T]` (role `Items`): the `Items` and
 * `ItemsMut` capabilities of a slice, and the operations of a pinned
 * `&'static mut [T]` that drop elements in place without moving the others.
 */
module SliceBridge {
  import opened Wrappers
  import opened Memory
  import Pinning

  /** A half-open index range `start..end`. */
  datatype Range = Range(start: nat, end: nat)

  /** A panic: the operation is aborted, nothing is returned. */
  datatype Panic = Panic(message: string)

  /** The range `truncate` accepts on a slice of length `len`; any other one panics. */
  predicate InRange(range: Range, len: nat)
  {
    range.start <= range.end <= len
  }

  /** `Items for [T]`: `<[T]>::iter` hands out shared references to the elements, in index order. */
  function ItemRefs<T>(s: SliceRef<T>): seq<Ref<T>>
    reads s.cells
    requires s.Valid()
  {
    Refs(s.cells[..], Shared, s.lo, s.hi)
  }

  /** `ItemsMut for [T]`: `<[T]>::iter_mut` hands out exclusive references to the elements, in index order. */
  function ItemMutRefs<T>(s: SliceRef<T>): seq<Ref<T>>
    reads s.cells
    requires s.Valid()
  {
    Refs(s.cells[..], Exclusive, s.lo, s.hi)
  }

  /**
   * What `items` and `items_mut` yield: one reference per element, in index
   * order, each at its element's own address and with its value.
   */
  lemma ItemsVisitEachOnce<T>(s: SliceRef<T>, a: nat)
    requires s.Valid()
    ensures Values(ItemRefs(s)) == s.Contents() && StrictlyIncreasing(ItemRefs(s))
    ensures Values(ItemMutRefs(s)) == s.Contents() && StrictlyIncreasing(ItemMutRefs(s))
    ensures multiset(Addresses(ItemRefs(s)))[a] == if s.lo <= a < s.hi then 1 else 0
    ensures multiset(Addresses(ItemMutRefs(s)))[a] == if s.lo <= a < s.hi then 1 else 0
  {
    RefsInOrder(s.cells[..], Shared, s.lo, s.hi);
    RefsInOrder(s.cells[..], Exclusive, s.lo, s.hi);
    RefsVisitOnce(s.cells[..], Shared, s.lo, s.hi, a);
    RefsVisitOnce(s.cells[..], Exclusive, s.lo, s.hi, a);
  }

  /** `Items::items for [T]`. */
  method Items<T>(s: SliceRef<T>) returns (it: Iter<Ref<T>>)
    requires s.Valid()
    ensures fresh(it) && it.Valid() && it.Remaining() == ItemRefs(s)
  {
    it := new Iter(ItemRefs(s));
  }

  /** `ItemsMut::items_mut for [T]`. */
  method ItemsMut<T>(s: SliceRef<T>) returns (it: Iter<Ref<T>>)
    requires s.Valid()
    ensures fresh(it) && it.Valid() && it.Remaining() == ItemMutRefs(s)
  {
    it := new Iter(ItemMutRefs(s));
  }

  /** `ItemsPin::<role::Items, [T]>::pin`: the same view, now pinned; nothing is copied or moved. */
  function PinSlice<T>(slice: SliceRef<T>, itemsUnpin: bool): (p: Pinning.ItemsPin<SliceRef<T>>)
    ensures Pinning.IntoInnerUnchecked(p) == slice && p.itemsUnpin == itemsUnpin
  {
    Pinning.NewUnchecked(slice, itemsUnpin)
  }

  /** `<[T]>::split_at_mut`: the views `[0, mid)` and `[mid, len)` of a slice. */
  function SplitAtMut<T>(s: SliceRef<T>, mid: nat): (halves: (SliceRef<T>, SliceRef<T>))
    requires s.lo <= s.hi && mid <= s.Len()
  {
    (SliceRef(s.cells, s.lo, s.lo + mid), SliceRef(s.cells, s.lo + mid, s.hi))
  }

  /**
   * The drops `truncate` performs on the view `[lo, hi)` of the cells `c`:
   * the prefix before `start`, then the suffix from `end`, each in index order.
   */
  ghost function TruncateLog<T>(c: seq<Option<T>>, lo: nat, hi: nat, range: Range): seq<Ref<T>>
    requires AllLive(c, lo, hi) && InRange(range, hi - lo)
  {
    Refs(c, Exclusive, lo, lo + range.start) + Refs(c, Exclusive, lo + range.end, hi)
  }

  /**
   * `truncate` drops each element outside the kept range exactly once and
   * none inside it: every address of the view before `start` or from `end` on
   * occurs once in the log, and every other address not at all.
   */
  lemma TruncateDropsOutsideOnce<T>(c: seq<Option<T>>, lo: nat, hi: nat, range: Range, a: nat)
    requires AllLive(c, lo, hi) && InRange(range, hi - lo)
    ensures multiset(Addresses(TruncateLog(c, lo, hi, range)))[a]
         == if lo <= a < lo + range.start || lo + range.end <= a < hi then 1 else 0
  {
    var prefix := Refs(c, Exclusive, lo, lo + range.start);
    var suffix := Refs(c, Exclusive, lo + range.end, hi);
    assert Addresses(prefix + suffix) == Addresses(prefix) + Addresses(suffix);
    RefsVisitOnce(c, Exclusive, lo, lo + range.start, a);
    RefsVisitOnce(c, Exclusive, lo + range.end, hi, a);
  }

  /**
   * `truncate` drops in index order, the whole prefix before any of the
   * suffix, and each drop sees the value of the element at its address.
   */
  lemma TruncateDropOrder<T>(c: seq<Option<T>>, lo: nat, hi: nat, range: Range)
    requires AllLive(c, lo, hi) && InRange(range, hi - lo)
    ensures StrictlyIncreasing(TruncateLog(c, lo, hi, range))
    ensures forall k :: 0 <= k < |TruncateLog(c, lo, hi, range)| ==>
              var d := TruncateLog(c, lo, hi, range)[k];
              d.access == Exclusive && d.address < |c| && c[d.address] == Some(d.value)
  {
    var prefix := Refs(c, Exclusive, lo, lo + range.start);
    var suffix := Refs(c, Exclusive, lo + range.end, hi);
    RefsLength(c, Exclusive, lo, lo + range.start);
    RefsLength(c, Exclusive, lo + range.end, hi);
    forall k | 0 <= k < |prefix|
      ensures prefix[k] == Ref(Exclusive, lo + k, c[lo + k].value)
    {
      RefsAt(c, Exclusive, lo, lo + range.start, k);
    }
    forall k | 0 <= k < |suffix|
      ensures suffix[k] == Ref(Exclusive, lo + range.end + k, c[lo + range.end + k].value)
    {
      RefsAt(c, Exclusive, lo + range.end, hi, k);
    }
  }

  /**
   * What `truncate` keeps: the elements of `[start, end)` stay in their cells
   * with their values, so the narrowed view sees exactly `old[start..end]`.
   */
  lemma TruncateKeepsRange<T>(c: seq<Option<T>>, lo: nat, hi: nat, range: Range)
    requires AllLive(c, lo, hi) && InRange(range, hi - lo)
    ensures var after := Cleared(Cleared(c, lo, lo + range.start), lo + range.end, hi);
            AllLive(after, lo + range.start, lo + range.end)
            && Live(after, lo + range.start, lo + range.end) == Live(c, lo, hi)[range.start..range.end]
  {
  }

  /** `ItemsPin::<role::Items, [T]>::drop_in_place`: drops every element of the view, in index order. */
  method DropInPlace<T>(p: Pinning.ItemsPin<SliceRef<T>>) returns (ghost dropped: seq<Ref<T>>)
    requires p.collection.Valid()
    modifies p.collection.cells
    ensures p.collection.cells[..] == Cleared(old(p.collection.cells[..]), p.collection.lo, p.collection.hi)
    ensures dropped == Refs(old(p.collection.cells[..]), Exclusive, p.collection.lo, p.collection.hi)
  {
    dropped := DropRange(p.collection.cells, p.collection.lo, p.collection.hi);
  }

  /**
   * `ItemsPin::<role::Items, [T]>::truncate`: panics iff the range is reversed
   * or reaches past the end; otherwise drops the elements before and after the
   * range in place and returns the pinned view of the range.
   */
  method Truncate<T>(p: Pinning.ItemsPin<SliceRef<T>>, range: Range)
    returns (r: Result<Pinning.ItemsPin<SliceRef<T>>, Panic>, ghost dropped: seq<Ref<T>>)
    requires p.collection.Valid()
    modifies p.collection.cells
    ensures r.Err? <==> !InRange(range, p.collection.Len())
    ensures r.Err? ==> r.error == Panic("Invalid range.")
                       && p.collection.cells[..] == old(p.collection.cells[..]) && dropped == []
    ensures r.Ok? ==>
              && r.value.collection == SliceRef(p.collection.cells, p.collection.lo + range.start, p.collection.lo + range.end)
              && r.value.itemsUnpin == p.itemsUnpin
              && r.value.collection.Valid()
              && r.value.collection.Contents() == old(p.collection.Contents())[range.start..range.end]
    ensures r.Ok? ==>
              && p.collection.cells[..] == Cleared(Cleared(old(p.collection.cells[..]), p.collection.lo, p.collection.lo + range.start),
                                                   p.collection.lo + range.end, p.collection.hi)
              && dropped == TruncateLog(old(p.collection.cells[..]), p.collection.lo, p.collection.hi, range)
  {
    var s := p.collection;
    if range.start > range.end || range.end > s.Len() {
      return Err(Panic("Invalid range.")), [];
    }
    ghost var before := s.cells[..];
    var (a, bc) := SplitAtMut(s, range.start);
    var (b, c) := SplitAtMut(bc, range.end - range.start);
    ghost var prefix := DropInPlace(PinSlice(a, p.itemsUnpin));
    RefsOnlyReadRange(before, s.cells[..], Exclusive, s.lo + range.end, s.hi);
    ghost var suffix := DropInPlace(PinSlice(c, p.itemsUnpin));
    dropped := prefix + suffix;
    TruncateKeepsRange(before, s.lo, s.hi, range);
    r := Ok(PinSlice(b, p.itemsUnpin));
  }

  /** A five-element slice truncated to `1..4` drops its first and last elements and keeps the middle three. */
  method TruncateExample()
  {
    var cells := new Option<char>[5](i => if i == 0 then Some('A') else if i == 1 then Some('B')
                                        else if i == 2 then Some('C') else if i == 3 then Some('D') else Some('E'));
    var p := PinSlice(SliceRef(cells, 0, 5), true);
    assert p.collection.Contents() == ['A', 'B', 'C', 'D', 'E'];
    ghost var initial := cells[..];
    var r, dropped := Truncate(p, Range(1, 4));
    assert r.Ok?;
    assert r.value.collection.Contents() == ['B', 'C', 'D'];
    assert Values(dropped) == ['A', 'E'] by {
      RefsAt(initial, Exclusive, 0, 1, 0);
      RefsAt(initial, Exclusive, 4, 5, 0);
    }
    var bad, none := Truncate(r.value, Range(2, 1));
    assert bad == Err(Panic("Invalid range.")) && none == [];
  }
}
