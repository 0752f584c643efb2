/** The vector the extend tiers and `from_elem` build on: a raw buffer of
    `cap` slots whose first `len` hold the elements. Its helpers
    (`with_capacity`, `reserve`, `set_len`, `extend_desugared`,
    `extend_trusted`, `append_elements`, `extend_with`) live in a file that is
    not part of this model; they are written here from the way the
    specialization code uses them and from the raw buffer's growth rule. */
module VecCore {
  import opened Common
  import opened Memory

  class Vec<T> {
    var buf: array<MaybeUninit<T>>
    var len: nat

    ghost predicate Valid()
      reads this, buf
    {
      len <= buf.Length && AllInit(buf[..len])
    }

    /** The elements, in order. */
    ghost function Contents(): (s: seq<T>)
      reads this, buf
      requires Valid()
      ensures |s| == len
    {
      Values(buf[..len])
    }

    function Capacity(): nat
      reads this
    {
      buf.Length
    }

    /** `with_capacity_in`: an empty vector with room for exactly `n`. */
    constructor WithCapacity(n: nat)
      ensures Valid() && fresh(buf) && Contents() == [] && Capacity() == n
    {
      buf := new MaybeUninit<T>[n](_ => Uninit);
      len := 0;
    }

    /** `Vec { buf: RawVec::with_capacity_zeroed_in(n), len: n }`: a zeroed
        allocation of `n` slots read as `n` elements; `zero` is the value whose
        representation is all zero bytes. */
    constructor FromZeroedBuffer(n: nat, zero: T)
      ensures Valid() && fresh(buf) && Contents() == Repeat(zero, n) && Capacity() == n
    {
      buf := new MaybeUninit<T>[n](_ => Init(zero));
      len := n;
      new;
      assert buf[..len] == Inits(Repeat(zero, n));
      ValuesInits(Repeat(zero, n));
    }

    /** `ptr::write` into a slot of the buffer. */
    method Write(off: nat, x: T)
      requires off < buf.Length
      modifies buf
      ensures buf[..] == old(buf[..])[off := Init(x)]
    {
      buf[off] := Init(x);
    }

    /** `set_len`: the caller vouches that the first `newLen` slots hold values. */
    method SetLen(newLen: nat)
      requires newLen <= Capacity() && AllInit(buf[..newLen])
      modifies this
      ensures Valid() && buf == old(buf) && len == newLen
    {
      len := newLen;
    }

    /** `reserve`: nothing happens while `additional` fits in the spare
        capacity; otherwise `len + additional` beyond `usize::MAX` panics with
        "capacity overflow", and growing reallocates to the amortized
        capacity, keeping every old slot. */
    method Reserve(additional: nat) returns (r: Outcome<Panic>)
      requires Valid()
      modifies this
      ensures Valid() && len == old(len) && Contents() == old(Contents())
      ensures var grows := old(len) + additional > old(Capacity());
        r == if grows && old(len) + additional > USIZE_MAX then Fail(CapacityOverflow) else Pass
      ensures r.Pass? ==> Capacity() >= len + additional
      ensures r.Pass? && old(len) + additional > old(Capacity()) ==>
        fresh(buf) && Capacity() == GrowAmortized(old(Capacity()), old(len) + additional)
      ensures r.Fail? || old(len) + additional <= old(Capacity()) ==> buf == old(buf)
      ensures buf == old(buf) || fresh(buf)
    {
      r := Pass;
      if additional > buf.Length - len {
        if len + additional > USIZE_MAX {
          return Fail(CapacityOverflow);
        }
        var newCap := GrowAmortized(buf.Length, len + additional);
        var nb := new MaybeUninit<T>[newCap](_ => Uninit);
        CopyNonoverlapping(buf[..], nb, 0);
        assert nb[..len] == buf[..len];
        buf := nb;
      }
    }

    /** `extend_desugared`: push the items one by one, reserving only when
        the buffer is full, for the pulled item and the source's remaining
        lower bound (saturating). `pulled` counts the items taken out of the
        source; on the panic the last of them was never stored. */
    method ExtendDesugared(iter: HintedIter<T>) returns (r: Outcome<Panic>, ghost pulled: nat)
      requires Valid() && iter.Valid()
      modifies this, buf
      ensures Valid() && (buf == old(buf) || fresh(buf))
      ensures r.Pass? ==> pulled == |iter.items| && Contents() == old(Contents()) + iter.items
      ensures r.Fail? ==> r.error == CapacityOverflow && 0 < pulled <= |iter.items|
      ensures r.Fail? ==> Contents() == old(Contents()) + iter.items[..pulled - 1]
      ensures r.Fail? ==> len == Capacity()
      ensures r.Fail? ==> old(len) + pulled - 1 + SaturatingAdd(iter.lower[pulled - 1], 1) > USIZE_MAX
    {
      ghost var c0 := Contents();
      r := Pass;
      var i := 0;
      while i < |iter.items|
        invariant 0 <= i <= |iter.items| && Valid() && (buf == old(buf) || fresh(buf))
        invariant Contents() == c0 + iter.items[..i] && len == old(len) + i && r == Pass
      {
        var element := iter.items[i];
        var l := len;
        if l == buf.Length {
          var lower := iter.lower[i];
          r := Reserve(SaturatingAdd(lower, 1));
          if r.Fail? {
            return r, i + 1;
          }
        }
        i := i + 1;
        PushWithin(l, element);
        assert iter.items[..i] == iter.items[..i - 1] + [element];
      }
      assert iter.items[..i] == iter.items;
      pulled := i;
    }

    /** The body of each push: write the slot after the last element and
        count it; the caller has checked there is room. */
    method PushWithin(l: nat, x: T)
      requires Valid() && l == len < Capacity()
      modifies this, buf
      ensures Valid() && buf == old(buf) && len == l + 1
      ensures Contents() == old(Contents()) + [x]
    {
      Write(l, x);
      assert buf[..l + 1] == old(buf[..l]) + [Init(x)];
      ValuesAppend(old(buf[..l]), [Init(x)]);
      SetLen(l + 1);
    }

    /** `extend_trusted`: one reservation for the exact length, then the
        items written through a local length committed at the end; a source
        with no upper bound is longer than `usize::MAX` and panics at once. */
    method ExtendTrusted(iter: TrustedLenIter<T>) returns (r: Outcome<Panic>)
      requires Valid()
      modifies this, buf
      ensures Valid() && (buf == old(buf) || fresh(buf))
      ensures iter.Unbounded? ==> r == Fail(CapacityOverflow) && buf == old(buf) && len == old(len)
      ensures iter.Bounded? ==> r == if old(len) + |iter.items| > old(Capacity()) && old(len) + |iter.items| > USIZE_MAX
                                     then Fail(CapacityOverflow) else Pass
      ensures r.Pass? ==> Contents() == old(Contents()) + iter.items
      ensures r.Fail? ==> Contents() == old(Contents())
    {
      var (low, high) := iter.SizeHint();
      if high.None? {
        return Fail(CapacityOverflow);
      }
      var additional := high.value;
      assert low == additional;
      r := Reserve(additional);
      if r.Fail? {
        return;
      }
      var items := iter.items;
      var base := len;
      ghost var b := buf;
      ghost var prefix := buf[..base];
      var localLen := base;
      var i := 0;
      while i < |items|
        invariant 0 <= i <= |items| && localLen == base + i && base + |items| <= buf.Length
        invariant len == base && buf == b && buf[..localLen] == prefix + Inits(items[..i])
      {
        Write(localLen, items[i]);
        assert Inits(items[..i + 1]) == Inits(items[..i]) + [Init(items[i])];
        localLen, i := localLen + 1, i + 1;
      }
      assert items[..i] == items;
      ValuesAppend(prefix, Inits(items));
      ValuesInits(items);
      SetLen(localLen);
    }

    /** `append_elements`: reserve, copy the slice after the last element in
        one block, and count it. */
    method AppendElements(other: seq<T>) returns (r: Outcome<Panic>)
      requires Valid()
      modifies this, buf
      ensures Valid() && (buf == old(buf) || fresh(buf))
      ensures r == if old(len) + |other| > old(Capacity()) && old(len) + |other| > USIZE_MAX
                   then Fail(CapacityOverflow) else Pass
      ensures r.Pass? ==> Contents() == old(Contents()) + other
      ensures r.Fail? ==> Contents() == old(Contents())
    {
      var count := |other|;
      r := Reserve(count);
      if r.Fail? {
        return;
      }
      var l := len;
      ghost var prefix := buf[..l];
      CopyNonoverlapping(Inits(other), buf, l);
      assert buf[..l + count] == prefix + Inits(other);
      ValuesAppend(prefix, Inits(other));
      ValuesInits(other);
      SetLen(l + count);
    }

    /** `extend_with(n, ExtendElement(value))`: reserve, then write `n - 1`
        clones and finally the value itself through a local length. A clone
        equals its original, so the vector gains `n` copies. */
    method ExtendWith(n: nat, value: T) returns (r: Outcome<Panic>)
      requires Valid()
      modifies this, buf
      ensures Valid() && (buf == old(buf) || fresh(buf))
      ensures r == if old(len) + n > old(Capacity()) && old(len) + n > USIZE_MAX
                   then Fail(CapacityOverflow) else Pass
      ensures r.Pass? ==> Contents() == old(Contents()) + Repeat(value, n) && Capacity() >= len
      ensures r.Pass? && old(len) + n <= old(Capacity()) ==> buf == old(buf)
      ensures r.Fail? ==> Contents() == old(Contents())
    {
      r := Reserve(n);
      if r.Fail? {
        return;
      }
      var base := len;
      ghost var prefix := buf[..base];
      WriteRepeat(base, n, value);
      ValuesAppend(prefix, Inits(Repeat(value, n)));
      ValuesInits(Repeat(value, n));
      SetLen(base + n);
    }

    /** The write loop of `extend_with`: `n - 1` writes of the value in a
        loop, then the last one outside it (where the source moves `value`
        instead of cloning it), starting at slot `base`. */
    method WriteRepeat(base: nat, n: nat, value: T)
      requires base + n <= buf.Length
      modifies buf
      ensures buf[..base + n] == old(buf[..base]) + Inits(Repeat(value, n))
    {
      ghost var prefix := buf[..base];
      var ptr := base;
      var k := 1;
      while k < n
        invariant 1 <= k && (n > 0 ==> k <= n) && (n == 0 ==> k == 1)
        invariant ptr == base + k - 1
        invariant buf[..ptr] == prefix + Inits(Repeat(value, k - 1))
      {
        Write(ptr, value);
        assert Inits(Repeat(value, k)) == Inits(Repeat(value, k - 1)) + [Init(value)];
        ptr, k := ptr + 1, k + 1;
      }
      if n > 0 {
        Write(ptr, value);
        assert Inits(Repeat(value, n)) == Inits(Repeat(value, n - 1)) + [Init(value)];
        ptr := ptr + 1;
      } else {
        assert Repeat(value, 0) == Repeat(value, k - 1);
      }
    }
  }
}
