/** `VecDeque::extend`, specialized by the kind of source. Each tier is proved
    to append exactly the source's items, in order, or to stop with the
    "capacity overflow" panic; they differ only in how often they reserve and
    how they write. */
module DequeSpecExtend {
  import opened Common
  import opened Memory
  import opened Ring
  import opened VecDequeCore
  import VecIntoIter

  /** `push_unchecked`: write into the slot after the last element and count
      it; callers guarantee a free slot. */
  method PushUnchecked<T>(deque: VecDeque<T>, element: T)
    requires deque.Valid() && deque.len < deque.Capacity()
    modifies deque, deque.buf
    ensures deque.Valid() && deque.buf == old(deque.buf) && deque.head == old(deque.head)
    ensures deque.len == old(deque.len) + 1
    ensures deque.buf[..] == old(deque.buf[..])[old(deque.ToPhysicalIdx(deque.len)) := Init(element)]
    ensures deque.Contents() == old(deque.Contents()) + [element]
  {
    PushView(deque.buf[..], deque.head, deque.len, Init(element));
    ValuesAppend(View(deque.buf[..], deque.head, deque.len), [Init(element)]);
    deque.BufferWrite(deque.ToPhysicalIdx(deque.len), element);
    deque.len := deque.len + 1;
  }

  /** The bulk tiers' unsafe block: `copy_slice` the items to the slot after
      the last element, then count them; callers have reserved the room. */
  method CopyToBack<T>(deque: VecDeque<T>, slice: seq<T>)
    requires deque.Valid() && deque.len + |slice| <= deque.Capacity()
    modifies deque, deque.buf
    ensures deque.Valid() && deque.buf == old(deque.buf) && deque.head == old(deque.head)
    ensures deque.len == old(deque.len) + |slice|
    ensures deque.Contents() == old(deque.Contents()) + slice
  {
    ghost var live := View(deque.buf[..], deque.head, deque.len);
    CopySliceView(deque.buf[..], deque.head, deque.len, Inits(slice));
    ValuesAppend(live, Inits(slice));
    ValuesInits(slice);
    deque.CopySlice(deque.ToPhysicalIdx(deque.len), slice);
    deque.len := deque.len + |slice|;
  }

  /** The generic tier: pull an item, reserve room for it and the source's
      remaining lower bound (saturating), then push without reserving while
      the buffer has free slots. A bad hint costs only extra reserves.
      `pulled` is how many items were taken out of the source; on the panic
      the last of them was never pushed. */
  method SpecExtend<T>(deque: VecDeque<T>, iter: HintedIter<T>) returns (r: Outcome<Panic>, ghost pulled: nat)
    requires deque.Valid() && iter.Valid()
    modifies deque, deque.buf
    ensures deque.Valid()
    ensures r.Pass? ==> pulled == |iter.items| && deque.Contents() == old(deque.Contents()) + iter.items
    ensures r.Fail? ==> r.error == CapacityOverflow && 0 < pulled <= |iter.items|
    ensures r.Fail? ==> deque.Contents() == old(deque.Contents()) + iter.items[..pulled - 1]
    ensures r.Fail? ==> old(deque.len) + pulled - 1 + SaturatingAdd(iter.lower[pulled - 1], 1) > USIZE_MAX
  {
    ghost var c0 := deque.Contents();
    var i := 0;
    while i < |iter.items|
      invariant 0 <= i <= |iter.items| && deque.Valid()
      invariant deque.Contents() == c0 + iter.items[..i] && deque.len == old(deque.len) + i
      invariant deque.buf == old(deque.buf) || fresh(deque.buf)
      decreases |iter.items| - i
    {
      var element := iter.items[i];
      var lower := iter.lower[i];
      i := i + 1;
      r := deque.Reserve(SaturatingAdd(lower, 1));
      if r.Fail? {
        return r, i;
      }
      PushUnchecked(deque, element);
      assert iter.items[..i] == iter.items[..i - 1] + [element];
      i := PushWhileRoom(deque, iter.items, i, c0);
    }
    assert iter.items[..i] == iter.items;
    return Pass, i;
  }

  /** The inner loop of the generic tier: push the source's next items
      without reserving while the buffer has a free slot. It stops when the
      buffer is full or the source is exhausted (where the source returns). */
  method PushWhileRoom<T>(deque: VecDeque<T>, items: seq<T>, start: nat, ghost c0: seq<T>) returns (i: nat)
    requires deque.Valid() && start <= |items| && deque.Contents() == c0 + items[..start]
    modifies deque, deque.buf
    ensures deque.Valid() && deque.buf == old(deque.buf) && start <= i <= |items|
    ensures deque.Contents() == c0 + items[..i] && deque.len == old(deque.len) + (i - start)
    ensures i < |items| ==> deque.len == deque.Capacity()
  {
    i := start;
    while deque.len < deque.Capacity()
      invariant start <= i <= |items| && deque.Valid() && deque.buf == old(deque.buf)
      invariant deque.Contents() == c0 + items[..i] && deque.len == old(deque.len) + (i - start)
      decreases |items| - i
    {
      if i == |items| {
        return;
      }
      var element := items[i];
      i := i + 1;
      PushUnchecked(deque, element);
      assert items[..i] == items[..i - 1] + [element];
    }
  }

  /** The `TrustedLen` tier: one reservation for the exact length, then a
      wrapping write of exactly that many items. A source with no upper bound
      is longer than `usize::MAX` and panics at once. */
  method SpecExtendTrusted<T>(deque: VecDeque<T>, iter: TrustedLenIter<T>) returns (r: Outcome<Panic>)
    requires deque.Valid()
    modifies deque, deque.buf
    ensures deque.Valid()
    ensures r.Pass? <==> iter.Bounded? && old(deque.len) + |iter.items| <= USIZE_MAX
    ensures r.Pass? ==> deque.Contents() == old(deque.Contents()) + iter.items
    ensures r.Fail? ==> r.error == CapacityOverflow && deque.Contents() == old(deque.Contents())
  {
    var (low, high) := iter.SizeHint();
    if high.Some? {
      var additional := high.value;
      assert low == additional;
      r := deque.Reserve(additional);
      if r.Fail? {
        return;
      }
      var written := deque.WriteIterWrapping(deque.ToPhysicalIdx(deque.len), iter.items, additional);
      assert additional == written;
    } else {
      r := Fail(CapacityOverflow);
    }
  }

  /** The `vec::IntoIter` tier: one reservation, a bulk wrap-aware copy of the
      source's remaining slice, then the source forgets those elements
      (they were moved, not dropped) and its destructor frees only the
      buffer. On the panic the source is dropped with its elements. */
  method SpecExtendVecIntoIter<T>(deque: VecDeque<T>, source: VecIntoIter.IntoIter<T>) returns (r: Outcome<Panic>)
    requires deque.Valid() && source.Valid() && source.alive
    requires source.buf != deque.buf
    modifies deque, deque.buf, source
    ensures deque.Valid() && !source.alive && source.buf == old(source.buf) && source.cap == old(source.cap)
    ensures r == if old(deque.len) + |old(source.AsSlice())| > USIZE_MAX then Fail(CapacityOverflow) else Pass
    ensures r.Pass? ==> deque.Contents() == old(deque.Contents()) + old(source.AsSlice())
    ensures r.Pass? ==> source.events == old(source.events) + [VecIntoIter.Released(old(source.buf), old(source.cap))]
    ensures r.Fail? ==> deque.Contents() == old(deque.Contents())
    ensures r.Fail? ==> source.events == old(source.events)
                          + VecIntoIter.DropEvents(old(source.AsSlice()), |old(source.AsSlice())|, old(source.cap))
                          + [VecIntoIter.Released(old(source.buf), old(source.cap))]
  {
    var slice := source.AsSlice();
    r := deque.Reserve(|slice|);
    if r.Fail? {
      source.Drop();
      return;
    }
    CopyToBack(deque, slice);
    source.ForgetRemainingElements();
    source.Drop();
    assert VecIntoIter.DropEvents(source.AsSlice(), 0, source.cap) == [];
  }

  /** The `&T` tier for `Copy` elements: extend with the copied values,
      through whichever tier the copying adapter selects. */
  method SpecExtendRefs<T>(deque: VecDeque<T>, source: RefSource<T>) returns (r: Outcome<Panic>, ghost pulled: nat)
    requires deque.Valid()
    requires source.Plain? ==> source.plain.Valid()
    modifies deque, deque.buf
    ensures deque.Valid()
    ensures source.Plain? && r.Pass? ==> pulled == |source.plain.items|
    ensures source.Plain? && r.Fail? ==>
              && 0 < pulled <= |source.plain.items|
              && deque.Contents() == old(deque.Contents()) + source.plain.items[..pulled - 1]
              && old(deque.len) + pulled - 1 + SaturatingAdd(source.plain.lower[pulled - 1], 1) > USIZE_MAX
    ensures source.Exact? && r.Fail? ==> deque.Contents() == old(deque.Contents())
    ensures source.Exact? ==> (r.Pass? <==> source.exact.Bounded? && old(deque.len) + |source.exact.items| <= USIZE_MAX)
    ensures r.Pass? ==> deque.Contents() == old(deque.Contents()) + (match source
      case Plain(p) => p.items
      case Exact(e) => e.items)
    ensures r.Fail? ==> r.error == CapacityOverflow
  {
    match source
    case Plain(p) =>
      r, pulled := SpecExtend(deque, p);
    case Exact(e) =>
      r := SpecExtendTrusted(deque, e);
      pulled := if r.Pass? then |e.items| else 0;
  }

  /** The `slice::Iter` tier for `Copy` elements: one reservation and one
      wrap-aware bulk copy of the whole slice. */
  method SpecExtendSlice<T>(deque: VecDeque<T>, slice: seq<T>) returns (r: Outcome<Panic>)
    requires deque.Valid()
    modifies deque, deque.buf
    ensures deque.Valid()
    ensures r == if old(deque.len) + |slice| > USIZE_MAX then Fail(CapacityOverflow) else Pass
    ensures r.Pass? ==> deque.Contents() == old(deque.Contents()) + slice
    ensures r.Fail? ==> deque.Contents() == old(deque.Contents())
  {
    r := deque.Reserve(|slice|);
    if r.Fail? {
      return;
    }
    CopyToBack(deque, slice);
  }
}
