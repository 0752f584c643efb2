/** The ring-buffer deque the extend tiers and the owning iterator work on:
    a raw buffer of `cap` slots, the physical slot `head` of the front element
    and the element count `len`. Its helpers (`to_physical_idx`,
    `buffer_write`, `copy_slice`, `write_iter_wrapping`, `reserve`,
    `pop_front`, `pop_back`) live in a file that is not part of this model;
    they are written here from the way the extend and iterator code uses them. */
module VecDequeCore {
  import opened Common
  import opened Memory
  import opened Ring

  class VecDeque<T> {
    var buf: array<MaybeUninit<T>>
    var head: nat
    var len: nat

    /** Exactly the `len` slots reached from `head` hold elements. */
    ghost predicate Valid()
      reads this, buf
    {
      RingShape(buf.Length, head, len) && AllInit(View(buf[..], head, len))
    }

    /** The logical front-to-back sequence. */
    ghost function Contents(): (s: seq<T>)
      reads this, buf
      requires Valid()
    {
      Values(View(buf[..], head, len))
    }

    function Capacity(): nat
      reads this
    {
      buf.Length
    }

    function Len(): nat
      reads this
    {
      len
    }

    constructor WithCapacity(n: nat)
      ensures Valid() && fresh(buf)
      ensures Contents() == [] && Capacity() == n && head == 0
    {
      buf := new MaybeUninit<T>[n](_ => Uninit);
      head, len := 0, 0;
    }

    /** `from_contiguous_raw_parts_in`: adopt a buffer whose slots
        `start .. end` are initialized; they become the deque, front first. */
    constructor FromContiguousRawParts(b: array<MaybeUninit<T>>, start: nat, end: nat)
      requires start <= end <= b.Length && AllInit(b[start..end])
      ensures Valid() && buf == b && head == start && len == end - start
      ensures Contents() == Values(b[start..end])
    {
      buf, head, len := b, start, end - start;
      new;
      forall i | 0 <= i < end - start ensures View(b[..], start, end - start)[i] == b[start..end][i] {
        assert WrapIndex(start + i, b.Length) == start + i;
      }
      assert View(b[..], start, end - start) == b[start..end];
    }

    /** `to_physical_idx`: the slot of logical index `idx`. */
    function ToPhysicalIdx(idx: nat): nat
      reads this
    {
      WrapIndex(head + idx, buf.Length)
    }

    /** `buffer_write`: move a value into a slot. */
    method BufferWrite(off: nat, x: T)
      requires off < buf.Length
      modifies buf
      ensures buf[..] == old(buf[..])[off := Init(x)]
    {
      buf[off] := Init(x);
    }

    /** `copy_slice`: the wrap-aware two-segment copy of `src` to slot `dst`. */
    method CopySlice(dst: nat, src: seq<T>)
      requires dst <= buf.Length && |src| <= buf.Length
      modifies buf
      ensures buf[..] == Ring.CopySlice(old(buf[..]), dst, Inits(src))
    {
      var headRoom := buf.Length - dst;
      if |src| <= headRoom {
        CopyNonoverlapping(Inits(src), buf, dst);
      } else {
        CopyNonoverlapping(Inits(src)[..headRoom], buf, dst);
        CopyNonoverlapping(Inits(src)[headRoom..], buf, 0);
      }
    }

    /** `write_iter`: write the items one slot after another from `dst`,
        counting them in `written`. */
    method WriteIter(dst: nat, items: seq<T>, written: nat) returns (w: nat)
      requires dst + |items| <= buf.Length
      modifies buf
      ensures buf[..] == Overwrite(old(buf[..]), dst, Inits(items))
      ensures w == written + |items|
    {
      w := written;
      var i := 0;
      while i < |items|
        invariant 0 <= i <= |items| && w == written + i
        invariant buf[..] == Overwrite(old(buf[..]), dst, Inits(items[..i]))
      {
        BufferWrite(dst + i, items[i]);
        assert Inits(items[..i + 1]) == Inits(items[..i]) + [Init(items[i])];
        i, w := i + 1, w + 1;
      }
      assert items[..i] == items;
    }

    /** `write_iter_wrapping`: write exactly `count` items from slot `dst`,
        wrapping to slot 0 when the run reaches the end of the buffer; its
        guard then adds the number written to `len`. */
    method WriteIterWrapping(dst: nat, items: seq<T>, count: nat) returns (written: nat)
      requires Valid() && dst == ToPhysicalIdx(len)
      requires |items| == count && len + count <= Capacity()
      modifies this, buf
      ensures Valid() && buf == old(buf) && head == old(head)
      ensures written == count && len == old(len) + written
      ensures buf[..] == Ring.CopySlice(old(buf[..]), dst, Inits(items))
      ensures Contents() == old(Contents()) + items
    {
      ghost var s0, l0 := buf[..], len;
      AppendItems(s0, head, l0, items);
      ghost var grown := View(Ring.CopySlice(s0, dst, Inits(items)), head, l0 + count);
      written := WriteWrapped(dst, items);
      len := len + written;
      assert View(buf[..], head, len) == grown;
    }

    /** The two `write_iter` runs of `write_iter_wrapping`: up to the end of
        the buffer, then from slot 0. */
    method WriteWrapped(dst: nat, items: seq<T>) returns (written: nat)
      requires dst <= buf.Length && |items| <= buf.Length
      modifies buf
      ensures written == |items|
      ensures buf[..] == Ring.CopySlice(old(buf[..]), dst, Inits(items))
    {
      var headRoom := buf.Length - dst;
      written := 0;
      if headRoom >= |items| {
        written := WriteIter(dst, items, written);
      } else {
        assert Inits(items)[..headRoom] == Inits(items[..headRoom]);
        assert Inits(items)[headRoom..] == Inits(items[headRoom..]);
        written := WriteIter(dst, items[..headRoom], written);
        written := WriteIter(0, items[headRoom..], written);
      }
    }

    /** `reserve`: make room for `additional` more elements. `len + additional`
        beyond `usize::MAX` panics with "capacity overflow"; growing moves the
        elements to the front of a larger buffer. */
    method Reserve(additional: nat) returns (r: Outcome<Panic>)
      requires Valid()
      modifies this
      ensures Valid() && len == old(len) && Contents() == old(Contents())
      ensures r == if old(len) + additional > USIZE_MAX then Fail(CapacityOverflow) else Pass
      ensures r.Pass? ==> Capacity() >= len + additional
      ensures buf == old(buf) || fresh(buf)
      ensures r.Fail? || old(len) + additional <= old(Capacity()) ==> buf == old(buf) && head == old(head)
    {
      if len + additional > USIZE_MAX {
        return Fail(CapacityOverflow);
      }
      r := Pass;
      if len + additional > buf.Length {
        var n, old_cap := len, buf.Length;
        var newCap := GrowAmortized(old_cap, n + additional);
        var nb := new MaybeUninit<T>[newCap](_ => Uninit);
        ghost var live := View(buf[..], head, n);
        var i := 0;
        while i < n
          invariant 0 <= i <= n && len == n && buf == old(buf) && head == old(head)
          invariant live == View(buf[..], head, n)
          invariant forall k :: 0 <= k < newCap ==> nb[k] == if k < i then live[k] else Uninit
        {
          nb[i] := buf[WrapIndex(head + i, old_cap)];
          i := i + 1;
        }
        LinearView(nb[..], n);
        assert nb[..n] == live;
        buf, head := nb, 0;
      }
    }

    /** `pop_front`: hand out the front element and advance `head`. */
    method PopFront() returns (r: Option<T>)
      requires Valid()
      modifies this
      ensures Valid() && buf == old(buf)
      ensures old(len) == 0 ==> r == None && Contents() == old(Contents())
      ensures old(len) > 0 ==> r == Some(old(Contents())[0]) && Contents() == old(Contents())[1..]
    {
      if len == 0 {
        return None;
      }
      PopFrontView(buf[..], head, len);
      var oldHead := head;
      head := ToPhysicalIdx(1);
      len := len - 1;
      r := Some(buf[WrapIndex(oldHead, buf.Length)].value);
    }

    /** `pop_back`: hand out the back element and shorten the deque. */
    method PopBack() returns (r: Option<T>)
      requires Valid()
      modifies this
      ensures Valid() && buf == old(buf) && head == old(head)
      ensures old(len) == 0 ==> r == None && Contents() == old(Contents())
      ensures old(len) > 0 ==> r == Some(old(Contents())[old(len) - 1]) && Contents() == old(Contents())[..old(len) - 1]
    {
      if len == 0 {
        return None;
      }
      PopBackView(buf[..], head, len);
      len := len - 1;
      r := Some(buf[ToPhysicalIdx(len)].value);
    }
  }
}
