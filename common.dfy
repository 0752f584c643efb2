/** Shared vocabulary of the allocation core: results, the machine word bound,
    the capacity growth policy of the raw buffer, and the shapes of the
    source iterators that the extend tiers consume. */
module Common {

  datatype Option<+T> = None | Some(value: T)

  /** A reported failure that the source turns into a panic. */
  datatype Panic = CapacityOverflow

  /** Pass, or the panic the operation raised (unwinding itself is not modelled). */
  datatype Outcome<+E> = Pass | Fail(error: E)

  /** Largest value of a 64-bit `usize`. */
  const USIZE_MAX: nat := 0xFFFF_FFFF_FFFF_FFFF

  /** `usize::saturating_add`. */
  function SaturatingAdd(a: nat, b: nat): (r: nat)
    requires a <= USIZE_MAX && b <= USIZE_MAX
    ensures r <= USIZE_MAX
    ensures a + b <= USIZE_MAX ==> r == a + b
    ensures a + b > USIZE_MAX ==> r == USIZE_MAX
  {
    if a + b <= USIZE_MAX then a + b else USIZE_MAX
  }

  /** The saturated sum is at least either operand, so reserving
      `lower.saturating_add(1)` always asks for room for at least one more
      element, whatever the hint. */
  lemma SaturatingAddCovers(a: nat, b: nat)
    requires a <= USIZE_MAX && b <= USIZE_MAX
    ensures SaturatingAdd(a, b) >= a && SaturatingAdd(a, b) >= b
    ensures b >= 1 ==> SaturatingAdd(a, b) >= 1
  {
  }

  /** Smallest capacity a raw buffer grows to from empty (the value for
      elements of 2 to 1024 bytes). */
  const MIN_NON_ZERO_CAP: nat := 4

  /** Amortized growth: at least the required capacity, at least twice the
      current one, and never below the starting capacity. */
  function GrowAmortized(cap: nat, required: nat): (r: nat)
    ensures r >= required && r >= 2 * cap && r >= MIN_NON_ZERO_CAP
    ensures r == required || r == 2 * cap || r == MIN_NON_ZERO_CAP
  {
    var c := if 2 * cap > required then 2 * cap else required;
    if c > MIN_NON_ZERO_CAP then c else MIN_NON_ZERO_CAP
  }

  /** An arbitrary source iterator: the items it yields, in order, and the
      lower bound its `size_hint` reports after the k-th pull (`lower[k]`).
      Nothing ties the hint to the real remaining count: a bad hint must
      never break memory safety. */
  datatype HintedIter<T> = HintedIter(items: seq<T>, lower: seq<nat>) {
    predicate Valid() {
      |lower| == |items| && forall k :: 0 <= k < |lower| ==> lower[k] <= USIZE_MAX
    }
  }

  /** A `TrustedLen` source: either its exact items (its `size_hint` is then
      `(n, Some(n))`), or a length beyond `usize::MAX` (`(usize::MAX, None)`). */
  datatype TrustedLenIter<T> = Bounded(items: seq<T>) | Unbounded {
    function SizeHint(): (r: (nat, Option<nat>))
      ensures Bounded? ==> r == (|items|, Some(|items|))
      ensures Unbounded? ==> r.1 == None
    {
      match this
      case Bounded(items) => (|items|, Some(|items|))
      case Unbounded => (USIZE_MAX, None)
    }
  }

  /** A `TrustedLen` hint with an upper bound is exact: both bounds are the
      number of items the source yields. Without an upper bound the source
      is longer than `usize::MAX`. */
  lemma TrustedHintExact<T>(source: TrustedLenIter<T>)
    ensures source.SizeHint().1.Some? <==> source.Bounded?
    ensures source.SizeHint().1.Some? ==>
              source.SizeHint().0 == source.SizeHint().1.value == |source.items|
  {
  }

  /** What a `&T` source is statically known to be: a plain iterator or a
      `TrustedLen` one (specialization picks the tier from this). */
  datatype RefSource<T> = Plain(plain: HintedIter<T>) | Exact(exact: TrustedLenIter<T>)

  /** `n` copies of `x`. */
  function Repeat<T>(x: T, n: nat): (r: seq<T>)
    ensures |r| == n
    ensures forall i :: 0 <= i < n ==> r[i] == x
  {
    seq(n, _ => x)
  }

  function Reverse<T>(s: seq<T>): (r: seq<T>)
    ensures |r| == |s|
  {
    if s == [] then [] else Reverse(s[1..]) + [s[0]]
  }
}
