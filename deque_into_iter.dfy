/** `vec_deque::IntoIter`: an owning iterator that is a thin wrapper around the
    deque itself; `next` pops the front, `next_back` pops the back. The pure
    `Drain` model says what any interleaving of the two yields, and `DrainWith`
    proves that the iterator yields exactly that. */
module DequeIntoIter {
  import opened Common
  import opened VecDequeCore

  class IntoIter<T> {
    var inner: VecDeque<T>

    ghost predicate Valid()
      reads this, inner, inner.buf
    {
      inner.Valid()
    }

    /** The elements not yet yielded, front first. */
    ghost function Contents(): seq<T>
      reads this, inner, inner.buf
      requires Valid()
    {
      inner.Contents()
    }

    /** `new`: take ownership of a deque. */
    constructor New(deque: VecDeque<T>)
      requires deque.Valid()
      ensures Valid() && inner == deque && Contents() == deque.Contents()
    {
      inner := deque;
    }

    /** `into_vecdeque`: give the deque back, with what is left in it. */
    method IntoVecDeque() returns (deque: VecDeque<T>)
      requires Valid()
      ensures deque == inner && deque.Valid() && deque.Contents() == Contents()
    {
      deque := inner;
    }

    /** `next`: the front element, or `None` once everything was yielded
        (and then forever: the iterator is fused). */
    method Next() returns (r: Option<T>)
      requires Valid()
      modifies inner
      ensures Valid() && inner == old(inner) && inner.buf == old(inner.buf)
      ensures old(Contents()) == [] ==> r == None && Contents() == []
      ensures old(Contents()) != [] ==> r == Some(old(Contents())[0]) && Contents() == old(Contents())[1..]
    {
      r := inner.PopFront();
    }

    /** `next_back`: the back element, or `None` once everything was yielded. */
    method NextBack() returns (r: Option<T>)
      requires Valid()
      modifies inner
      ensures Valid() && inner == old(inner) && inner.buf == old(inner.buf)
      ensures old(Contents()) == [] ==> r == None && Contents() == []
      ensures old(Contents()) != [] ==> r == Some(Last(old(Contents()))) && Contents() == DropLast(old(Contents()))
    {
      r := inner.PopBack();
    }

    /** `size_hint`: exact, the deque's length. */
    function SizeHint(): (r: (nat, Option<nat>))
      reads this, inner, inner.buf
      requires Valid()
      ensures r == (|Contents()|, Some(|Contents()|))
    {
      (inner.Len(), Some(inner.Len()))
    }

    /** `is_empty`: nothing is left to yield. */
    function IsEmpty(): (b: bool)
      reads this, inner, inner.buf
      requires Valid()
      ensures b <==> Contents() == []
    {
      inner.Len() == 0
    }
  }

  /** Wrapping a deque in its iterator and unwrapping it gives back the same
      deque, untouched. */
  method NewThenIntoVecDeque<T>(deque: VecDeque<T>) returns (back: VecDeque<T>)
    requires deque.Valid()
    ensures back == deque && back.Valid() && back.Contents() == deque.Contents()
  {
    var it := new IntoIter.New(deque);
    back := it.IntoVecDeque();
  }

  function Last<T>(s: seq<T>): T
    requires s != []
  {
    s[|s| - 1]
  }

  function DropLast<T>(s: seq<T>): seq<T>
    requires s != []
  {
    s[..|s| - 1]
  }

  /** Which end a pull takes from. */
  datatype End = Front | Back

  /** What a run of pulls has produced: the front pulls' items, the back
      pulls' items (each in the order yielded), and what is left. */
  datatype Drained<T> = Drained(fronts: seq<T>, backs: seq<T>, rest: seq<T>)

  /** One pull; from an exhausted iterator it yields nothing. */
  function Step<T>(d: Drained<T>, e: End): Drained<T> {
    if d.rest == [] then d
    else match e
      case Front => Drained(d.fronts + [d.rest[0]], d.backs, d.rest[1..])
      case Back => Drained(d.fronts, d.backs + [Last(d.rest)], DropLast(d.rest))
  }

  /** The pulls `ends`, in order, on the sequence `s`. */
  function Drain<T>(s: seq<T>, ends: seq<End>): Drained<T> {
    if ends == [] then Drained([], [], s)
    else Step(Drain(s, ends[..|ends| - 1]), ends[|ends| - 1])
  }

  lemma {:induction false} ReverseSnoc<T>(s: seq<T>, x: T)
    ensures Reverse(s + [x]) == [x] + Reverse(s)
  {
    if s != [] {
      assert (s + [x])[1..] == s[1..] + [x];
      ReverseSnoc(s[1..], x);
    } else {
      assert ([] + [x])[1..] == [];
    }
  }

  lemma {:induction false} ReverseReverse<T>(s: seq<T>)
    ensures Reverse(Reverse(s)) == s
  {
    if s != [] {
      ReverseSnoc(Reverse(s[1..]), s[0]);
      ReverseReverse(s[1..]);
    }
  }

  /** One pull moves an element from what is left to one of the ends and
      loses nothing. */
  lemma StepConserves<T>(d: Drained<T>, e: End)
    ensures var d' := Step(d, e); d'.fronts + d'.rest + Reverse(d'.backs) == d.fronts + d.rest + Reverse(d.backs)
  {
    if d.rest != [] {
      var x, tail := d.rest[0], d.rest[1..];
      match e
      case Front =>
        assert d.rest == [x] + tail;
        assert (d.fronts + [x]) + tail == d.fronts + d.rest;
      case Back =>
        var y, init := Last(d.rest), DropLast(d.rest);
        ReverseSnoc(d.backs, y);
        assert d.rest == init + [y];
        assert init + ([y] + Reverse(d.backs)) == d.rest + Reverse(d.backs);
    }
  }

  /** Nothing is lost, duplicated or reordered: the front pulls, then what is
      left, then the back pulls read backwards, are the original sequence. */
  lemma {:induction false} DrainConserves<T>(s: seq<T>, ends: seq<End>)
    ensures var d := Drain(s, ends); d.fronts + d.rest + Reverse(d.backs) == s
  {
    if ends != [] {
      var pre := ends[..|ends| - 1];
      DrainConserves(s, pre);
      StepConserves(Drain(s, pre), ends[|ends| - 1]);
    }
  }

  /** Each pull that finds something left yields exactly one element, so what
      is left is the slice between the front pulls and the back pulls. */
  lemma DrainRest<T>(s: seq<T>, ends: seq<End>)
    ensures var d := Drain(s, ends);
      |d.fronts| + |d.rest| + |d.backs| == |s| &&
      d.fronts == s[..|d.fronts|] && d.rest == s[|d.fronts|..|s| - |d.backs|]
  {
    DrainConserves(s, ends);
    var d := Drain(s, ends);
    assert s == d.fronts + d.rest + Reverse(d.backs);
    assert s[..|d.fronts|] == d.fronts;
    assert s[|d.fronts|..|s| - |d.backs|] == d.rest;
  }

  /** Pulling only from the back, at least as often as there are elements,
      yields the sequence reversed. */
  lemma AllBack<T>(s: seq<T>, ends: seq<End>)
    requires |ends| >= |s| && forall i :: 0 <= i < |ends| ==> ends[i] == Back
    ensures Drain(s, ends) == Drained([], Reverse(s), [])
  {
    AllBackPrefix(s, ends);
    var d := Drain(s, ends);
    DrainConserves(s, ends);
    assert d.fronts == [] && d.rest == [];
    assert Reverse(d.backs) == s;
    ReverseReverse(d.backs);
    assert d == Drained([], Reverse(s), []);
  }

  lemma {:induction false} AllBackPrefix<T>(s: seq<T>, ends: seq<End>)
    requires forall i :: 0 <= i < |ends| ==> ends[i] == Back
    ensures Drain(s, ends).fronts == []
    ensures |Drain(s, ends).rest| == if |ends| >= |s| then 0 else |s| - |ends|
  {
    if ends != [] {
      AllBackPrefix(s, ends[..|ends| - 1]);
    }
  }

  /** Running the pulls `ends` on the iterator yields exactly what `Drain`
      says, front pulls and back pulls separately, and leaves `rest`. */
  method DrainWith<T>(it: IntoIter<T>, ends: seq<End>) returns (fronts: seq<T>, backs: seq<T>)
    requires it.Valid()
    modifies it.inner
    ensures it.Valid() && it.inner == old(it.inner)
    ensures Drain(old(it.Contents()), ends) == Drained(fronts, backs, it.Contents())
  {
    ghost var s := it.Contents();
    fronts, backs := [], [];
    var i := 0;
    while i < |ends|
      invariant 0 <= i <= |ends| && it.Valid() && it.inner == old(it.inner) && it.inner.buf == old(it.inner.buf)
      invariant Drain(s, ends[..i]) == Drained(fronts, backs, it.Contents())
    {
      assert ends[..i + 1][..i] == ends[..i];
      if ends[i] == Front {
        var x := it.Next();
        if x.Some? {
          fronts := fronts + [x.value];
        }
      } else {
        var x := it.NextBack();
        if x.Some? {
          backs := backs + [x.value];
        }
      }
      i := i + 1;
    }
    assert ends[..i] == ends;
  }
}
