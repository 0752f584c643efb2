/** The ring buffer's index arithmetic and its wrap-aware bulk copy, stated on
    plain sequences of slots. `VecDequeCore` runs these on its `array`. */
module Ring {
  import opened Memory

  /** `wrap_index`: a logical offset below twice the capacity folded back into
      the buffer by one conditional subtraction. */
  function WrapIndex(logical: nat, cap: nat): (r: nat)
    ensures logical < 2 * cap ==> r < cap
    ensures logical < cap ==> r == logical
  {
    if logical >= cap then logical - cap else logical
  }

  /** Below twice the capacity, the conditional subtraction is the remainder. */
  lemma WrapIndexMod(logical: nat, cap: nat)
    requires 0 < cap && logical < 2 * cap
    ensures WrapIndex(logical, cap) == logical % cap
  {
    if logical >= cap {
      assert logical == cap + (logical - cap);
    }
  }

  /** A ring of `cap` slots whose `len` live elements start at `head`.
      `head` may equal `cap` (a deque rebuilt from a fully consumed prefix);
      the arithmetic below folds it back like any other offset. */
  predicate RingShape(cap: nat, head: nat, len: nat) {
    len <= cap && head <= cap
  }

  /** The logical sequence: element `i` lives in physical slot `(head + i) mod cap`. */
  function View<S>(s: seq<S>, head: nat, len: nat): (r: seq<S>)
    requires RingShape(|s|, head, len)
    ensures |r| == len
  {
    seq(len, i requires 0 <= i < len => s[WrapIndex(head + i, |s|)])
  }

  /** `copy_slice(dst, src)`: copy `src` into the ring starting at physical slot
      `dst`, as one contiguous run when it fits before the end of the buffer,
      otherwise as `[dst, cap)` followed by the rest at `[0, ..)`. */
  function CopySlice<S>(s: seq<S>, dst: nat, src: seq<S>): (r: seq<S>)
    requires dst <= |s| && |src| <= |s|
    ensures |r| == |s|
  {
    var headRoom := |s| - dst;
    if |src| <= headRoom then Overwrite(s, dst, src)
    else Overwrite(Overwrite(s, dst, src[..headRoom]), 0, src[headRoom..])
  }

  /** Every item of `src` lands in the slot `j` places after `dst` (modulo the
      capacity), and every slot lying `|src|` or more places after `dst` keeps
      its old content. */
  lemma {:induction false} CopySliceSlots<S>(s: seq<S>, dst: nat, src: seq<S>)
    requires dst <= |s| && |src| <= |s|
    requires dst == |s| ==> src == []
    ensures forall j :: 0 <= j < |src| ==> CopySlice(s, dst, src)[WrapIndex(dst + j, |s|)] == src[j]
    ensures forall k :: 0 <= k < |s| && WrapIndex(k + |s| - dst, |s|) >= |src| ==> CopySlice(s, dst, src)[k] == s[k]
  {
    var r := CopySlice(s, dst, src);
    var cap := |s|;
    var headRoom := cap - dst;
    forall j | 0 <= j < |src| ensures r[WrapIndex(dst + j, cap)] == src[j] {
    }
    forall k | 0 <= k < cap && WrapIndex(k + cap - dst, cap) >= |src| ensures r[k] == s[k] {
    }
  }

  /** The two-segment copy appends `src` to the ring when it is written at the
      physical slot of logical index `len` and fits in the free slots. */
  lemma {:induction false} CopySliceView<S>(s: seq<S>, head: nat, len: nat, src: seq<S>)
    requires RingShape(|s|, head, len) && len + |src| <= |s|
    ensures WrapIndex(head + len, |s|) <= |s|
    ensures View(CopySlice(s, WrapIndex(head + len, |s|), src), head, len + |src|)
            == View(s, head, len) + src
  {
    var cap := |s|;
    var d := WrapIndex(head + len, cap);
    var r := CopySlice(s, d, src);
    var headRoom := cap - d;
    var lhs := View(r, head, len + |src|);
    var rhs := View(s, head, len) + src;
    forall i | 0 <= i < len + |src| ensures lhs[i] == rhs[i] {
      var p := WrapIndex(head + i, cap);
      assert lhs[i] == r[p];
      if i < len {
        // a live slot lies outside both written runs
        assert rhs[i] == s[p];
        if |src| <= headRoom {
          assert r[p] == s[p];
        } else {
          assert head + len < cap;
          assert r[p] == s[p];
        }
      } else {
        var j := i - len;
        assert rhs[i] == src[j];
        if |src| <= headRoom {
          assert p == d + j;
        } else {
          assert head + len < cap;
          if j < headRoom {
            assert p == d + j;
          } else {
            assert p == j - headRoom;
          }
        }
      }
    }
  }

  /** The same on initialized slots: copying `items` behind `len` live
      elements keeps them all initialized and appends `items` to their values. */
  lemma AppendItems<T>(s: seq<MaybeUninit<T>>, head: nat, len: nat, items: seq<T>)
    requires RingShape(|s|, head, len) && AllInit(View(s, head, len)) && len + |items| <= |s|
    ensures WrapIndex(head + len, |s|) <= |s|
    ensures var grown := View(CopySlice(s, WrapIndex(head + len, |s|), Inits(items)), head, len + |items|);
      AllInit(grown) && Values(grown) == Values(View(s, head, len)) + items
  {
    CopySliceView(s, head, len, Inits(items));
    ValuesAppend(View(s, head, len), Inits(items));
    ValuesInits(items);
  }

  /** `push_unchecked`'s single write is the one-element copy. */
  lemma PushView<S>(s: seq<S>, head: nat, len: nat, x: S)
    requires RingShape(|s|, head, len) && len < |s|
    ensures WrapIndex(head + len, |s|) < |s|
    ensures View(s[WrapIndex(head + len, |s|) := x], head, len + 1) == View(s, head, len) + [x]
  {
    var d := WrapIndex(head + len, |s|);
    assert s[d := x] == CopySlice(s, d, [x]);
    CopySliceView(s, head, len, [x]);
  }

  /** Removing the front element moves `head` one slot on. */
  lemma PopFrontView<S>(s: seq<S>, head: nat, len: nat)
    requires RingShape(|s|, head, len) && len > 0
    ensures RingShape(|s|, WrapIndex(head + 1, |s|), len - 1)
    ensures View(s, head, len)[0] == s[WrapIndex(head, |s|)]
    ensures View(s, WrapIndex(head + 1, |s|), len - 1) == View(s, head, len)[1..]
  {
    var cap := |s|;
    var h := WrapIndex(head + 1, cap);
    var a := View(s, h, len - 1);
    var b := View(s, head, len)[1..];
    forall i | 0 <= i < len - 1 ensures a[i] == b[i] {
      assert a[i] == s[WrapIndex(h + i, cap)];
      assert b[i] == s[WrapIndex(head + 1 + i, cap)];
    }
  }

  /** Removing the back element just shortens the view. */
  lemma PopBackView<S>(s: seq<S>, head: nat, len: nat)
    requires RingShape(|s|, head, len) && len > 0
    ensures WrapIndex(head + len - 1, |s|) < |s|
    ensures View(s, head, len)[len - 1] == s[WrapIndex(head + len - 1, |s|)]
    ensures View(s, head, len - 1) == View(s, head, len)[..len - 1]
  {
  }

  /** A ring whose head is slot 0 and which does not wrap is a plain prefix. */
  lemma LinearView<S>(s: seq<S>, len: nat)
    requires len <= |s|
    ensures View(s, 0, len) == s[..len]
  {
    forall i | 0 <= i < len ensures View(s, 0, len)[i] == s[i] {
      assert WrapIndex(i, |s|) == i;
    }
  }
}
