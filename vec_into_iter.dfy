/** `vec::IntoIter`: the owning iterator of a vector. It keeps the vector's
    buffer (`buf`, `cap`) and two cursors `ptr <= end` delimiting the elements
    not yet handed out. For a zero-sized element type no memory moves: `ptr`
    stays put and `end` encodes `ptr + len`.

    Element destructors and the buffer's release are recorded in a ghost event
    log, so that "each remaining element is dropped exactly once, then the
    buffer is released exactly once" can be stated. */
module VecIntoIter {
  import opened Common
  import opened Memory
  import VecDequeCore

  /** Sized elements occupy slots of the buffer; a zero-sized type has one
      value (the one `mem::zeroed()` conjures) and needs no memory. */
  datatype ElemKind<T> = Sized | ZeroSized(unit: T)

  datatype Event<T> =
    /** An element's destructor ran while the iterator still reported
        `liveLen` remaining elements and capacity `liveCap`. */
    | Dropped(elem: T, liveLen: nat, liveCap: nat)
    /** The drop guard handed `(buf, cap)` back to the raw buffer for freeing. */
    | Released(buf: array<MaybeUninit<T>>, cap: nat)

  /** `drop_in_place` over a run of elements, in order. */
  function DropEvents<T>(xs: seq<T>, liveLen: nat, liveCap: nat): (es: seq<Event<T>>)
    ensures |es| == |xs|
  {
    seq(|xs|, i requires 0 <= i < |xs| => Dropped(xs[i], liveLen, liveCap))
  }

  /** The elements whose destructors ran, in order. */
  function DroppedElems<T>(es: seq<Event<T>>): seq<T> {
    if es == [] then []
    else (if es[0].Dropped? then [es[0].elem] else []) + DroppedElems(es[1..])
  }

  /** The number of buffer releases. */
  function Releases<T>(es: seq<Event<T>>): nat {
    if es == [] then 0 else (if es[0].Released? then 1 else 0) + Releases(es[1..])
  }

  lemma {:induction false} DroppedElemsAppend<T>(a: seq<Event<T>>, b: seq<Event<T>>)
    ensures DroppedElems(a + b) == DroppedElems(a) + DroppedElems(b)
    ensures Releases(a + b) == Releases(a) + Releases(b)
  {
    if a == [] {
      assert a + b == b;
    } else {
      var first := if a[0].Dropped? then [a[0].elem] else [];
      assert (a + b)[0] == a[0] && (a + b)[1..] == a[1..] + b;
      DroppedElemsAppend(a[1..], b);
      assert DroppedElems(a + b) == first + (DroppedElems(a[1..]) + DroppedElems(b));
    }
  }

  /** Dropping a run of elements destroys exactly those elements, in order,
      and releases nothing. */
  lemma {:induction false} DropEventsContent<T>(xs: seq<T>, liveLen: nat, liveCap: nat)
    ensures DroppedElems(DropEvents(xs, liveLen, liveCap)) == xs
    ensures Releases(DropEvents(xs, liveLen, liveCap)) == 0
  {
    if xs != [] {
      assert DropEvents(xs, liveLen, liveCap)[1..] == DropEvents(xs[1..], liveLen, liveCap);
      DropEventsContent(xs[1..], liveLen, liveCap);
    }
  }

  class IntoIter<T> {
    const kind: ElemKind<T>
    var buf: array<MaybeUninit<T>>
    var cap: nat
    var ptr: nat
    var end: nat
    ghost var events: seq<Event<T>>
    /** The iterator still owns its buffer: its destructor has not run and
        ownership has not moved into a deque. */
    ghost var alive: bool

    ghost predicate Valid()
      reads this, buf
    {
      ptr <= end &&
      (kind.Sized? ==> end <= buf.Length && cap == buf.Length && AllInit(buf[ptr..end]))
    }

    /** `as_slice`: the elements not yet handed out, front first. */
    function AsSlice(): (s: seq<T>)
      reads this, buf
      requires Valid()
      ensures |s| == end - ptr
      ensures kind.Sized? ==> Inits(s) == buf[ptr..end]
    {
      match kind
      case ZeroSized(u) => Repeat(u, end - ptr)
      case Sized => InitsValues(buf[ptr..end]); Values(buf[ptr..end])
    }

    /** `size_hint`: always exact. */
    function SizeHint(): (r: (nat, Option<nat>))
      reads this, buf
      requires Valid()
      ensures r == (|AsSlice()|, Some(|AsSlice()|))
    {
      (end - ptr, Some(end - ptr))
    }

    /** `is_empty`: the cursors have met. */
    function IsEmpty(): (b: bool)
      reads this, buf
      requires Valid()
      ensures b <==> AsSlice() == []
    {
      ptr == end
    }

    /** `Vec::into_iter` for a sized element type: the cursors span the
        vector's `len` elements at the start of its buffer. */
    constructor FromVec(b: array<MaybeUninit<T>>, len: nat)
      requires len <= b.Length && AllInit(b[..len])
      ensures Valid() && alive && events == []
      ensures kind == Sized && buf == b && cap == b.Length && ptr == 0 && end == len
      ensures AsSlice() == Values(b[..len])
    {
      kind := Sized;
      buf, cap, ptr, end := b, b.Length, 0, len;
      events, alive := [], true;
      new;
      assert b[0..len] == b[..len];
    }

    /** `Vec::into_iter` for a zero-sized element type: no buffer, a vector
        capacity of `usize::MAX`, and `end` encoding `ptr + len`. */
    constructor FromZstVec(unit: T, len: nat)
      ensures Valid() && alive && events == []
      ensures kind == ZeroSized(unit) && cap == USIZE_MAX && end == ptr + len
      ensures AsSlice() == Repeat(unit, len)
    {
      kind := ZeroSized(unit);
      buf := new MaybeUninit<T>[0];
      cap, ptr, end := USIZE_MAX, 0, len;
      events, alive := [], true;
    }

    /** `next`: `None` exactly when the cursors have met; otherwise the front
        element, moving `ptr` up (or, for a zero-sized type, `end` down). */
    method Next() returns (r: Option<T>)
      requires Valid() && alive
      modifies this
      ensures Valid() && alive && buf == old(buf) && cap == old(cap) && events == old(events)
      ensures r == None <==> old(ptr) == old(end)
      ensures r == None ==> ptr == old(ptr) && end == old(end)
      ensures r != None ==> r == Some(old(AsSlice())[0]) && AsSlice() == old(AsSlice())[1..]
      ensures r != None && kind.Sized? ==> ptr == old(ptr) + 1 && end == old(end)
      ensures r != None && kind.ZeroSized? ==> ptr == old(ptr) && end == old(end) - 1
    {
      if ptr == end {
        r := None;
      } else if kind.ZeroSized? {
        end := end - 1;
        r := Some(kind.unit);
      } else {
        var old_ptr := ptr;
        ptr := ptr + 1;
        r := Some(buf[old_ptr].value);
        assert buf[old(ptr)..old(end)] == [buf[old_ptr]] + buf[ptr..end];
      }
    }

    /** `next_back`: `None` exactly when the cursors have met; otherwise `end`
        moves down and the element it now points at is handed out. */
    method NextBack() returns (r: Option<T>)
      requires Valid() && alive
      modifies this
      ensures Valid() && alive && buf == old(buf) && cap == old(cap) && events == old(events)
      ensures ptr == old(ptr)
      ensures r == None <==> old(ptr) == old(end)
      ensures r == None ==> end == old(end)
      ensures r != None ==> end == old(end) - 1
      ensures r != None ==> r == Some(old(AsSlice())[|old(AsSlice())| - 1])
      ensures r != None ==> AsSlice() == old(AsSlice())[..|old(AsSlice())| - 1]
      ensures r != None && kind.Sized? ==> r == Some(buf[end].value)
    {
      if end == ptr {
        r := None;
      } else if kind.ZeroSized? {
        end := end - 1;
        r := Some(kind.unit);
      } else {
        AllInitSlice(buf[ptr..end], 0, end - 1 - ptr);
        assert buf[ptr..end] == buf[ptr..end - 1] + [buf[end - 1]];
        end := end - 1;
        r := Some(buf[end].value);
      }
    }

    /** `advance_by(n)`: drop the first `min(len, n)` elements, moving the
        cursor first; `Fail(step)` reports a shortfall. */
    method AdvanceBy(n: nat) returns (r: Outcome<nat>)
      requires Valid() && alive
      modifies this
      ensures Valid() && alive && buf == old(buf) && cap == old(cap)
      ensures var s := old(AsSlice()); var step := if |s| < n then |s| else n;
        && (r == if step < n then Fail(step) else Pass)
        && AsSlice() == s[step..]
        && events == old(events) + DropEvents(s[..step], |AsSlice()|, cap)
    {
      var step := if end - ptr < n then end - ptr else n;
      ghost var whole := AsSlice();
      ghost var toDrop := whole[..step];
      ghost var rest := whole[step..];
      if kind.ZeroSized? {
        end := end - step;
      } else {
        ghost var live := buf[ptr..end];
        AllInitSlice(live, step, |live|);
        assert Values(live[step..|live|]) == rest;
        ptr := ptr + step;
        assert buf[ptr..end] == live[step..|live|];
      }
      assert AsSlice() == rest;
      events := events + DropEvents(toDrop, end - ptr, cap);
      r := if step < n then Fail(step) else Pass;
    }

    /** `advance_back_by(n)`: drop the last `min(len, n)` elements, moving
        `end` first; `Fail(step)` reports a shortfall. */
    method AdvanceBackBy(n: nat) returns (r: Outcome<nat>)
      requires Valid() && alive
      modifies this
      ensures Valid() && alive && buf == old(buf) && cap == old(cap) && ptr == old(ptr)
      ensures var s := old(AsSlice()); var step := if |s| < n then |s| else n;
        && (r == if step < n then Fail(step) else Pass)
        && AsSlice() == s[..|s| - step]
        && events == old(events) + DropEvents(s[|s| - step..], |AsSlice()|, cap)
    {
      var step := if end - ptr < n then end - ptr else n;
      ghost var whole := AsSlice();
      TruncateTo(end - step);
      events := events + DropEvents(whole[|whole| - step..], end - ptr, cap);
      r := if step < n then Fail(step) else Pass;
    }

    /** Move `end` back to `e`: the remaining slice loses its tail. */
    method TruncateTo(e: nat)
      requires Valid() && ptr <= e <= end
      modifies this
      ensures Valid() && buf == old(buf) && cap == old(cap) && ptr == old(ptr)
      ensures events == old(events) && alive == old(alive)
      ensures end == e && AsSlice() == old(AsSlice())[..e - ptr]
    {
      ghost var whole := AsSlice();
      if kind.ZeroSized? {
        end := e;
      } else {
        ghost var live := buf[ptr..end];
        AllInitSlice(live, 0, e - ptr);
        assert Values(live[0..e - ptr]) == whole[..e - ptr];
        end := e;
        assert buf[ptr..end] == live[0..e - ptr];
      }
    }

    /** `next_chunk::<N>`: the next `N` elements when that many remain;
        otherwise all remaining elements, leaving the iterator empty. */
    method NextChunk(N: nat) returns (r: Common.Outcome<seq<T>>, chunk: seq<T>)
      requires Valid() && alive
      modifies this
      ensures Valid() && alive && buf == old(buf) && cap == old(cap)
      ensures events == old(events)
      ensures |old(AsSlice())| >= N ==> r == Pass && chunk == old(AsSlice())[..N] && AsSlice() == old(AsSlice())[N..]
      ensures |old(AsSlice())| < N ==> r == Fail(old(AsSlice())) && chunk == [] && AsSlice() == []
      ensures |old(AsSlice())| < N ==> ptr == old(ptr) && end == ptr
      ensures |old(AsSlice())| >= N && kind.Sized? ==> ptr == old(ptr) + N && end == old(end)
      ensures |old(AsSlice())| >= N && kind.ZeroSized? ==> ptr == old(ptr) && end == old(end) - N
    {
      var len := end - ptr;
      ghost var whole := AsSlice();
      if kind.ZeroSized? {
        if len < N {
          ForgetRemainingElements();
          return Fail(Repeat(kind.unit, len)), [];
        }
        end := end - N;
        return Pass, Repeat(kind.unit, N);
      }
      if len < N {
        var part := Values(buf[ptr..end]);
        ForgetRemainingElements();
        return Fail(part), [];
      }
      ghost var live := buf[ptr..end];
      AllInitSlice(live, 0, N);
      AllInitSlice(live, N, len);
      assert live[0..N] == buf[ptr..ptr + N];
      assert live[N..len] == buf[ptr + N..end];
      chunk := Values(buf[ptr..ptr + N]);
      ptr := ptr + N;
      assert buf[ptr..end] == live[N..len];
      assert Values(live[N..len]) == whole[N..];
      r := Pass;
    }

    /** `forget_remaining_elements`: the remaining elements are no longer
        owned (nothing is dropped) but the buffer still is; `end` moves, so a
        zero-sized cursor keeps its alignment. */
    method ForgetRemainingElements()
      requires Valid() && alive
      modifies this
      ensures Valid() && alive && buf == old(buf) && cap == old(cap) && events == old(events)
      ensures ptr == old(ptr) && end == ptr && AsSlice() == []
    {
      end := ptr;
    }

    /** `forget_allocation_drop_remaining`: give up the buffer (capacity 0,
        the dangling empty buffer, both cursors on it), and only then drop the
        remaining elements, so each destructor sees an iterator that owns
        neither them nor the allocation. */
    method ForgetAllocationDropRemaining()
      requires Valid() && alive
      modifies this
      ensures Valid() && alive && fresh(buf) && buf.Length == 0
      ensures cap == 0 && ptr == 0 && end == 0 && AsSlice() == []
      ensures events == old(events) + DropEvents(old(AsSlice()), 0, 0)
    {
      ghost var remaining := AsSlice();
      cap := 0;
      buf := new MaybeUninit<T>[0];
      ptr := 0;
      end := 0;
      events := events + DropEvents(remaining, |AsSlice()|, cap);
    }

    /** `into_vecdeque`: hand the buffer and the remaining elements to a deque
        without dropping or releasing anything; for a sized type the deque
        adopts the very buffer, its head at `ptr`. */
    method IntoVecDeque() returns (d: VecDequeCore.VecDeque<T>)
      requires Valid() && alive
      modifies this
      ensures !alive && events == old(events) && buf == old(buf) && cap == old(cap)
      ensures d.Valid() && d.Contents() == old(AsSlice())
      ensures kind.Sized? ==> d.buf == old(buf) && d.Capacity() == old(cap) && d.head == old(ptr) && d.len == old(end - ptr)
      ensures kind.ZeroSized? ==> fresh(d.buf) && d.head == 0 && d.len == end - ptr
    {
      ghost var remaining := AsSlice();
      if kind.ZeroSized? {
        var len := end - ptr;
        var zs := new MaybeUninit<T>[len](_ => Init(kind.unit));
        assert zs[0..len] == Inits(Repeat(kind.unit, len));
        ValuesInits(Repeat(kind.unit, len));
        d := new VecDequeCore.VecDeque<T>.FromContiguousRawParts(zs, 0, len);
      } else {
        ValuesInits(remaining);
        d := new VecDequeCore.VecDeque<T>.FromContiguousRawParts(buf, ptr, end);
      }
      alive := false;
    }

    /** `drop`: destroy the remaining elements, then the drop guard hands the
        buffer back for deallocation, once. */
    method Drop()
      requires Valid() && alive
      modifies this
      ensures !alive && buf == old(buf) && cap == old(cap) && ptr == old(ptr) && end == old(end)
      ensures events == old(events) + DropEvents(old(AsSlice()), end - ptr, cap) + [Released(buf, cap)]
    {
      events := events + DropEvents(AsSlice(), end - ptr, cap);
      events := events + [Released(buf, cap)];
      alive := false;
    }

    /** `count`: the number of remaining elements; consuming the iterator
        runs its destructor. */
    method Count() returns (n: nat)
      requires Valid() && alive
      modifies this
      ensures n == |old(AsSlice())| && !alive && buf == old(buf) && cap == old(cap)
      ensures events == old(events) + DropEvents(old(AsSlice()), n, old(cap)) + [Released(old(buf), old(cap))]
    {
      n := end - ptr;
      Drop();
    }
  }

  /** `k` calls of `next`: the elements handed out are a prefix of the
      remaining slice, and fewer than `k` only once it is exhausted. */
  method NextTimes<T>(it: IntoIter<T>, k: nat) returns (taken: seq<T>)
    requires it.Valid() && it.alive
    modifies it
    ensures it.Valid() && it.alive && it.buf == old(it.buf) && it.cap == old(it.cap) && it.events == old(it.events)
    ensures taken + it.AsSlice() == old(it.AsSlice())
    ensures |taken| <= k && (|taken| < k ==> it.AsSlice() == [])
  {
    ghost var whole := it.AsSlice();
    taken := [];
    var i := 0;
    while i < k
      invariant it.Valid() && it.alive && it.buf == old(it.buf) && it.cap == old(it.cap) && it.events == old(it.events)
      invariant |taken| <= i <= k && (|taken| < i ==> it.AsSlice() == [])
      invariant taken + it.AsSlice() == whole
      decreases k - i
    {
      ghost var before := it.AsSlice();
      var x := it.Next();
      if x.Some? {
        ghost var after := it.AsSlice();
        assert before == [x.value] + after;
        ShiftFront(taken, x.value, after);
        taken := taken + [x.value];
      }
      i := i + 1;
    }
  }

  /** Moving the front element of the rest to the end of the prefix keeps
      their concatenation. */
  lemma ShiftFront<T>(taken: seq<T>, x: T, after: seq<T>)
    ensures (taken + [x]) + after == taken + ([x] + after)
  {
  }

  /** Draining an iterator with `next` `k` times and then dropping it yields
      the first `k` elements, destroys exactly the rest, and releases the
      buffer exactly once. */
  method NextThenDrop<T>(it: IntoIter<T>, k: nat) returns (taken: seq<T>)
    requires it.Valid() && it.alive && it.events == []
    modifies it
    ensures !it.alive
    ensures taken + DroppedElems(it.events) == old(it.AsSlice())
    ensures |taken| <= k && (|taken| < k ==> DroppedElems(it.events) == [])
    ensures Releases(it.events) == 1
  {
    taken := NextTimes(it, k);
    ghost var rest := it.AsSlice();
    it.Drop();
    assert it.events == DropEvents(rest, |rest|, it.cap) + [Released(it.buf, it.cap)];
    DropLog(rest, |rest|, it.buf, it.cap);
  }

  /** The destructor's log destroys exactly the remaining elements and
      releases the buffer once. */
  lemma DropLog<T>(rest: seq<T>, liveLen: nat, b: array<MaybeUninit<T>>, cap: nat)
    ensures DroppedElems(DropEvents(rest, liveLen, cap) + [Released(b, cap)]) == rest
    ensures Releases(DropEvents(rest, liveLen, cap) + [Released(b, cap)]) == 1
  {
    var done: seq<Event<T>> := [Released(b, cap)];
    assert DroppedElems(done) == [] && Releases(done) == 1 by {
      assert done[1..] == [];
    }
    DroppedElemsAppend(DropEvents(rest, liveLen, cap), done);
    DropEventsContent(rest, liveLen, cap);
  }
}
