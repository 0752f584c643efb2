/** `Vec::extend`, specialized by the kind of source. Every tier appends
    exactly the source's items, in order, or stops with the "capacity
    overflow" panic. */
module VecSpecExtend {
  import opened Common
  import opened VecCore
  import VecIntoIter

  /** The generic tier: `extend_desugared`. `pulled` is how many items were
      taken out of the source; the panic comes only from the reservation for
      the last of them, which was never stored, when the vector is full and
      its length plus the saturated hint exceeds `usize::MAX`. */
  method SpecExtend<T>(v: Vec<T>, iter: HintedIter<T>) returns (r: Outcome<Panic>, ghost pulled: nat)
    requires v.Valid() && iter.Valid()
    modifies v, v.buf
    ensures v.Valid()
    ensures r.Pass? ==> pulled == |iter.items| && v.Contents() == old(v.Contents()) + iter.items
    ensures r.Fail? ==> r.error == CapacityOverflow && 0 < pulled <= |iter.items|
    ensures r.Fail? ==> v.Contents() == old(v.Contents()) + iter.items[..pulled - 1] && v.len == v.Capacity()
    ensures r.Fail? ==> old(v.len) + pulled - 1 + SaturatingAdd(iter.lower[pulled - 1], 1) > USIZE_MAX
  {
    r, pulled := v.ExtendDesugared(iter);
  }

  /** The `TrustedLen` tier: `extend_trusted`. */
  method SpecExtendTrusted<T>(v: Vec<T>, iter: TrustedLenIter<T>) returns (r: Outcome<Panic>)
    requires v.Valid()
    modifies v, v.buf
    ensures v.Valid()
    ensures r.Pass? <==> iter.Bounded? && (old(v.len) + |iter.items| <= old(v.Capacity()) || old(v.len) + |iter.items| <= USIZE_MAX)
    ensures r.Pass? ==> v.Contents() == old(v.Contents()) + iter.items
    ensures r.Fail? ==> r.error == CapacityOverflow && v.Contents() == old(v.Contents())
  {
    r := v.ExtendTrusted(iter);
  }

  /** The `vec::IntoIter` tier: append the iterator's remaining slice in one
      block, then the iterator forgets those elements (they were moved) and
      its destructor frees only the buffer. On the panic the iterator is
      dropped with its elements. */
  method SpecExtendIntoIter<T>(v: Vec<T>, source: VecIntoIter.IntoIter<T>) returns (r: Outcome<Panic>)
    requires v.Valid() && source.Valid() && source.alive
    requires source.buf != v.buf
    modifies v, v.buf, source
    ensures v.Valid() && !source.alive && source.buf == old(source.buf) && source.cap == old(source.cap)
    ensures r.Pass? <==> old(v.len) + |old(source.AsSlice())| <= old(v.Capacity()) || old(v.len) + |old(source.AsSlice())| <= USIZE_MAX
    ensures r.Pass? ==> v.Contents() == old(v.Contents()) + old(source.AsSlice())
    ensures r.Pass? ==> source.events == old(source.events) + [VecIntoIter.Released(old(source.buf), old(source.cap))]
    ensures r.Fail? ==> v.Contents() == old(v.Contents())
    ensures r.Fail? ==> source.events == old(source.events)
                          + VecIntoIter.DropEvents(old(source.AsSlice()), |old(source.AsSlice())|, old(source.cap))
                          + [VecIntoIter.Released(old(source.buf), old(source.cap))]
  {
    r := v.AppendElements(source.AsSlice());
    if r.Fail? {
      source.Drop();
      return;
    }
    source.ForgetRemainingElements();
    source.Drop();
    assert VecIntoIter.DropEvents(source.AsSlice(), 0, source.cap) == [];
  }

  /** The `&T` tier for `Clone` elements: extend with the clones, through
      whichever tier the cloning adapter selects; a clone equals its
      original. */
  method SpecExtendRefs<T>(v: Vec<T>, source: RefSource<T>) returns (r: Outcome<Panic>, ghost pulled: nat)
    requires v.Valid()
    requires source.Plain? ==> source.plain.Valid()
    modifies v, v.buf
    ensures v.Valid()
    ensures source.Plain? && r.Pass? ==> pulled == |source.plain.items|
    ensures source.Plain? && r.Fail? ==>
              && 0 < pulled <= |source.plain.items|
              && v.Contents() == old(v.Contents()) + source.plain.items[..pulled - 1]
              && old(v.len) + pulled - 1 + SaturatingAdd(source.plain.lower[pulled - 1], 1) > USIZE_MAX
    ensures source.Exact? && r.Fail? ==> v.Contents() == old(v.Contents())
    ensures source.Exact? ==>
              (r.Pass? <==> (source.exact.Bounded? &&
                             (old(v.len) + |source.exact.items| <= old(v.Capacity()) || old(v.len) + |source.exact.items| <= USIZE_MAX)))
    ensures r.Pass? ==> v.Contents() == old(v.Contents()) + (match source
                                                              case Plain(p) => p.items
                                                              case Exact(e) => e.items)
    ensures r.Fail? ==> r.error == CapacityOverflow
  {
    match source
    case Plain(p) =>
      r, pulled := SpecExtend(v, p);
    case Exact(e) =>
      r := SpecExtendTrusted(v, e);
      pulled := if r.Pass? then |e.items| else 0;
  }

  /** The `slice::Iter` tier for `Copy` elements: `append_elements` of the
      whole slice. */
  method SpecExtendSlice<T>(v: Vec<T>, slice: seq<T>) returns (r: Outcome<Panic>)
    requires v.Valid()
    modifies v, v.buf
    ensures v.Valid()
    ensures r.Pass? <==> old(v.len) + |slice| <= old(v.Capacity()) || old(v.len) + |slice| <= USIZE_MAX
    ensures r.Pass? ==> v.Contents() == old(v.Contents()) + slice
    ensures r.Fail? ==> v.Contents() == old(v.Contents())
  {
    r := v.AppendElements(slice);
  }
}
