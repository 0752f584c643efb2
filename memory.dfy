/** Buffer slots and the raw copy primitive the containers are built on.
    A slot of a raw buffer is either uninitialized memory or holds a value;
    a buffer is an `array` of slots, so a fresh allocation needs no value. */
module Memory {

  datatype MaybeUninit<T> = Uninit | Init(value: T)

  ghost predicate AllInit<T>(s: seq<MaybeUninit<T>>) {
    forall i :: 0 <= i < |s| ==> s[i].Init?
  }

  /** The values held by a run of initialized slots. */
  function Values<T>(s: seq<MaybeUninit<T>>): (r: seq<T>)
    requires AllInit(s)
    ensures |r| == |s|
  {
    seq(|s|, i requires 0 <= i < |s| => s[i].value)
  }

  /** Slots initialized with the given values. */
  function Inits<T>(xs: seq<T>): (r: seq<MaybeUninit<T>>)
    ensures |r| == |xs| && AllInit(r)
  {
    seq(|xs|, i requires 0 <= i < |xs| => Init(xs[i]))
  }

  lemma ValuesInits<T>(xs: seq<T>)
    ensures Values(Inits(xs)) == xs
  {
  }

  lemma InitsValues<T>(s: seq<MaybeUninit<T>>)
    requires AllInit(s)
    ensures Inits(Values(s)) == s
  {
  }

  lemma ValuesAppend<T>(a: seq<MaybeUninit<T>>, b: seq<MaybeUninit<T>>)
    requires AllInit(a) && AllInit(b)
    ensures AllInit(a + b) && Values(a + b) == Values(a) + Values(b)
  {
    assert AllInit(a + b) by {
      forall i | 0 <= i < |a + b| ensures (a + b)[i].Init? {
        if i < |a| { assert (a + b)[i] == a[i]; } else { assert (a + b)[i] == b[i - |a|]; }
      }
    }
  }

  lemma AllInitSlice<T>(s: seq<MaybeUninit<T>>, i: nat, j: nat)
    requires AllInit(s) && i <= j <= |s|
    ensures AllInit(s[i..j]) && Values(s[i..j]) == Values(s)[i..j]
  {
    assert forall k :: 0 <= k < j - i ==> s[i..j][k] == s[i + k];
  }

  /** A buffer in which `src` has been copied to slots `at .. at + |src|`. */
  function Overwrite<S>(s: seq<S>, at: nat, src: seq<S>): (r: seq<S>)
    requires at + |src| <= |s|
    ensures |r| == |s|
    ensures forall k :: 0 <= k < |s| ==> r[k] == if at <= k < at + |src| then src[k - at] else s[k]
  {
    s[..at] + src + s[at + |src|..]
  }

  /** `ptr::copy_nonoverlapping` of `|src|` slots into `dst` at `at`; the source
      is a value, so it cannot overlap the destination. */
  method CopyNonoverlapping<S>(src: seq<S>, dst: array<S>, at: nat)
    requires at + |src| <= dst.Length
    modifies dst
    ensures dst[..] == Overwrite(old(dst[..]), at, src)
  {
    var i := 0;
    while i < |src|
      invariant 0 <= i <= |src|
      invariant forall k :: 0 <= k < dst.Length ==>
        dst[k] == if at <= k < at + i then src[k - at] else old(dst[k])
    {
      dst[at + i] := src[i];
      i := i + 1;
    }
    assert dst[..] == Overwrite(old(dst[..]), at, src);
  }
}
