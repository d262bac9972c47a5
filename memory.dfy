/**
 * The contiguous storage the pinning bridges stand on, at the level of the
 * Rust standard library: a heap allocation is an array of cells, a cell holds
 * `Some(v)` while an element lives in it and `None` while it is uninitialised
 * (spare capacity, or an element already dropped in place).  The address of
 * an element is its cell index; an element "does not move" when it stays in
 * the same cell of the same allocation with the same value.
 */
module Memory {
  import opened Wrappers

  /** Whether a reference is shared (`&T`) or exclusive (`&mut T`). */
  datatype Access = Shared | Exclusive

  /** A reference to the element living at `address`, with the value it sees there. */
  datatype Ref<T> = Ref(access: Access, address: nat, value: T)

  /** Every cell in `[lo, hi)` holds a live element. */
  ghost predicate AllLive<T>(c: seq<Option<T>>, lo: nat, hi: nat)
  {
    lo <= hi <= |c| && forall i :: lo <= i < hi ==> c[i].Some?
  }

  /** The values of the live cells `[lo, hi)`, in address order. */
  function Live<T>(c: seq<Option<T>>, lo: nat, hi: nat): (vs: seq<T>)
    requires AllLive(c, lo, hi)
  {
    seq(hi - lo, k requires 0 <= k < hi - lo => c[lo + k].value)
  }

  /** The cells after every element in `[lo, hi)` was dropped in place. */
  ghost function Cleared<T>(c: seq<Option<T>>, lo: nat, hi: nat): seq<Option<T>>
    requires lo <= hi <= |c|
  {
    seq(|c|, i requires 0 <= i < |c| => if lo <= i < hi then None else c[i])
  }

  /**
   * The references a forward iteration over the cells `[lo, hi)` hands out
   * (`slice::Iter` for `Shared`, `slice::IterMut` for `Exclusive`).
   */
  function Refs<T>(c: seq<Option<T>>, access: Access, lo: nat, hi: nat): seq<Ref<T>>
    requires AllLive(c, lo, hi)
    decreases hi - lo
  {
    if lo == hi then [] else Refs(c, access, lo, hi - 1) + [Ref(access, hi - 1, c[hi - 1].value)]
  }

  /** The addresses a sequence of references points at, in order. */
  function Addresses<T>(refs: seq<Ref<T>>): (addrs: seq<nat>)
    ensures |addrs| == |refs|
  {
    seq(|refs|, i requires 0 <= i < |refs| => refs[i].address)
  }

  /** The values a sequence of references sees, in order. */
  function Values<T>(refs: seq<Ref<T>>): (vs: seq<T>)
    ensures |vs| == |refs|
  {
    seq(|refs|, i requires 0 <= i < |refs| => refs[i].value)
  }

  /** Each reference is at a strictly higher address than the one before it. */
  ghost predicate StrictlyIncreasing<T>(refs: seq<Ref<T>>)
  {
    forall i, j :: 0 <= i < j < |refs| ==> refs[i].address < refs[j].address
  }

  /** The k-th reference of an iteration over `[lo, hi)` is to cell `lo + k`, with that cell's value. */
  lemma {:induction false} RefsAt<T>(c: seq<Option<T>>, access: Access, lo: nat, hi: nat, k: nat)
    requires AllLive(c, lo, hi) && k < hi - lo
    ensures |Refs(c, access, lo, hi)| == hi - lo
    ensures Refs(c, access, lo, hi)[k] == Ref(access, lo + k, c[lo + k].value)
  {
    if k < hi - 1 - lo {
      RefsAt(c, access, lo, hi - 1, k);
    } else {
      RefsLength(c, access, lo, hi - 1);
    }
  }

  /** An iteration over `[lo, hi)` hands out exactly `hi - lo` references. */
  lemma {:induction false} RefsLength<T>(c: seq<Option<T>>, access: Access, lo: nat, hi: nat)
    requires AllLive(c, lo, hi)
    ensures |Refs(c, access, lo, hi)| == hi - lo
    decreases hi - lo
  {
    if lo < hi {
      RefsLength(c, access, lo, hi - 1);
    }
  }

  /**
   * An iteration over `[lo, hi)` visits every address inside the range exactly
   * once and no address outside it.
   */
  lemma {:induction false} RefsVisitOnce<T>(c: seq<Option<T>>, access: Access, lo: nat, hi: nat, a: nat)
    requires AllLive(c, lo, hi)
    ensures multiset(Addresses(Refs(c, access, lo, hi)))[a] == if lo <= a < hi then 1 else 0
    decreases hi - lo
  {
    if lo < hi {
      var front := Refs(c, access, lo, hi - 1);
      var last := Ref(access, hi - 1, c[hi - 1].value);
      assert Addresses(front + [last]) == Addresses(front) + [hi - 1];
      RefsVisitOnce(c, access, lo, hi - 1, a);
    }
  }

  /** An iteration over `[lo, hi)` goes in address order and sees the live values of the range. */
  lemma RefsInOrder<T>(c: seq<Option<T>>, access: Access, lo: nat, hi: nat)
    requires AllLive(c, lo, hi)
    ensures StrictlyIncreasing(Refs(c, access, lo, hi))
    ensures Values(Refs(c, access, lo, hi)) == Live(c, lo, hi)
  {
    var refs := Refs(c, access, lo, hi);
    RefsLength(c, access, lo, hi);
    forall k | 0 <= k < hi - lo
      ensures refs[k] == Ref(access, lo + k, c[lo + k].value)
    {
      RefsAt(c, access, lo, hi, k);
    }
  }

  /** An iteration over `[lo, hi)` depends only on the cells inside the range. */
  lemma {:induction false} RefsOnlyReadRange<T>(c: seq<Option<T>>, c': seq<Option<T>>, access: Access, lo: nat, hi: nat)
    requires AllLive(c, lo, hi) && hi <= |c'|
    requires forall i :: lo <= i < hi ==> c'[i] == c[i]
    ensures AllLive(c', lo, hi) && Refs(c', access, lo, hi) == Refs(c, access, lo, hi)
    decreases hi - lo
  {
    if lo < hi {
      RefsOnlyReadRange(c, c', access, lo, hi - 1);
    }
  }

  /** Runs the destructor of the element in cell `address` in place; the cell is uninitialised afterwards. */
  method DropSlot<T>(cells: array<Option<T>>, address: nat)
    requires address < cells.Length && cells[address].Some?
    modifies cells
    ensures cells[..] == old(cells[..])[address := None]
  {
    cells[address] := None;
  }

  /**
   * Drops every element of the cells `[lo, hi)` in place, walking the range
   * with exclusive references in address order; `dropped` logs the reference
   * each drop went through.
   */
  method DropRange<T>(cells: array<Option<T>>, lo: nat, hi: nat) returns (ghost dropped: seq<Ref<T>>)
    requires AllLive(cells[..], lo, hi)
    modifies cells
    ensures cells[..] == Cleared(old(cells[..]), lo, hi)
    ensures dropped == Refs(old(cells[..]), Exclusive, lo, hi)
  {
    ghost var before := cells[..];
    dropped := [];
    var i := lo;
    while i < hi
      invariant lo <= i <= hi
      invariant cells[..] == Cleared(before, lo, i)
      invariant dropped == Refs(before, Exclusive, lo, i)
    {
      dropped := dropped + [Ref(Exclusive, i, cells[i].value)];
      DropSlot(cells, i);
      i := i + 1;
    }
  }

  /** A borrowed view of the cells `[lo, hi)` of one allocation: Rust's `&mut [T]`. */
  datatype SliceRef<T> = SliceRef(cells: array<Option<T>>, lo: nat, hi: nat)
  {
    /** The view lies inside its allocation and every element in it is live. */
    ghost predicate Valid()
      reads cells
    {
      AllLive(cells[..], lo, hi)
    }

    /** `<[T]>::len`. */
    function Len(): nat
      requires lo <= hi
    {
      hi - lo
    }

    /** The elements seen through the view, in index order. */
    ghost function Contents(): seq<T>
      reads cells
      requires Valid()
    {
      Live(cells[..], lo, hi)
    }
  }

  /**
   * A forward iterator over a finite sequence of items (`slice::Iter`,
   * `slice::IterMut`): `pos` is the cursor, and once the items run out every
   * further step reports exhaustion.
   */
  class Iter<P> {
    const items: seq<P>
    var pos: nat

    ghost predicate Valid()
      reads this
    {
      pos <= |items|
    }

    /** The items this iterator has yet to yield. */
    ghost function Remaining(): seq<P>
      reads this
      requires Valid()
    {
      items[pos..]
    }

    constructor (items: seq<P>)
      ensures Valid() && Remaining() == items
    {
      this.items := items;
      pos := 0;
    }

    /** `Iterator::next`. */
    method Next() returns (r: Option<P>)
      requires Valid()
      modifies this
      ensures Valid()
      ensures old(Remaining()) == [] ==> r == None && Remaining() == []
      ensures old(Remaining()) != [] ==> r == Some(old(Remaining())[0]) && Remaining() == old(Remaining())[1..]
    {
      if pos == |items| {
        r := None;
      } else {
        r := Some(items[pos]);
        pos := pos + 1;
      }
    }

    /** Runs the iterator to exhaustion, collecting what it yields. */
    method Drain() returns (xs: seq<P>)
      requires Valid()
      modifies this
      ensures Valid() && Remaining() == []
      ensures xs == old(Remaining())
    {
      xs := [];
      var r := Next();
      while r.Some?
        invariant Valid()
        invariant r.None? ==> Remaining() == []
        invariant xs + (if r.Some? then [r.value] else []) + Remaining() == old(Remaining())
        decreases |Remaining()| + (if r.Some? then 1 else 0)
      {
        xs := xs + [r.value];
        r := Next();
      }
    }
  }
}
