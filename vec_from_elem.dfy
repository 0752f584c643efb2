/** `vec![elem; n]`: `from_elem`, specialized by the element type. Every
    path yields exactly `n` copies of `elem` in a buffer of capacity `n`;
    they differ in how the slots get their value (clones, a zeroed
    allocation, or a byte fill). */
module VecFromElem {
  import opened Common
  import opened Memory
  import opened VecCore

  newtype u8 = x: int | 0 <= x < 256
  newtype i8 = x: int | -128 <= x < 128

  /** `x as u8`: the two's-complement byte of an `i8`. */
  function I8AsU8(x: i8): (b: u8)
    ensures x >= 0 ==> b as int == x as int
    ensures x < 0 ==> b as int == x as int + 256
  {
    if x < 0 then (x as int + 256) as u8 else x as int as u8
  }

  /** The `i8` a byte of memory represents. */
  function U8AsI8(b: u8): (x: i8)
    ensures b < 128 ==> x as int == b as int
    ensures b >= 128 ==> x as int == b as int - 256
  {
    if b < 128 then b as int as i8 else (b as int - 256) as i8
  }

  /** The byte cast loses nothing: reading the byte back gives the element. */
  lemma ByteRoundTrip(x: i8)
    ensures U8AsI8(I8AsU8(x)) == x
  {
  }

  /** Only zero is represented by the zero byte, so `elem == 0` is exactly
      the case a zeroed allocation can serve. */
  lemma ZeroByte(x: i8)
    ensures I8AsU8(x) == 0 <==> x == 0
  {
  }

  /** `ptr::write_bytes` over a buffer of one-byte elements: each of the
      first `n` slots now holds `x`, the element the written byte represents;
      the other slots are untouched. */
  method WriteBytes<T>(buf: array<MaybeUninit<T>>, x: T, n: nat)
    requires n <= buf.Length
    modifies buf
    ensures buf[..n] == Inits(Repeat(x, n)) && buf[n..] == old(buf[n..])
  {
    var i := 0;
    while i < n
      invariant 0 <= i <= n
      invariant buf[..i] == Inits(Repeat(x, i)) && buf[n..] == old(buf[n..])
    {
      buf[i] := Init(x);
      assert Inits(Repeat(x, i + 1)) == Inits(Repeat(x, i)) + [Init(x)];
      assert buf[..i + 1] == buf[..i] + [buf[i]];
      i := i + 1;
    }
  }

  /** The generic path: an exact-capacity vector filled by `extend_with`. */
  method FromElem<T>(elem: T, n: nat) returns (v: Vec<T>)
    ensures fresh(v) && fresh(v.buf) && v.Valid()
    ensures v.Contents() == Repeat(elem, n) && v.Capacity() == n
  {
    v := new Vec.WithCapacity(n);
    var r := v.ExtendWith(n, elem);
    assert r == Pass;
  }

  /** The `IsZero` path: an element whose representation is all zero bytes
      (`zero` is that value, so `is_zero` is `elem == zero`) comes from a
      zeroed allocation with the length set to `n`; any other element takes
      the generic path. */
  method FromElemIsZero<T(==)>(elem: T, n: nat, zero: T) returns (v: Vec<T>)
    ensures fresh(v) && fresh(v.buf) && v.Valid()
    ensures v.Contents() == Repeat(elem, n) && v.Capacity() == n
  {
    if elem == zero {
      v := new Vec.FromZeroedBuffer(n, zero);
      return;
    }
    v := new Vec.WithCapacity(n);
    var r := v.ExtendWith(n, elem);
    assert r == Pass;
  }

  /** The `i8` path: zero from a zeroed allocation; otherwise fill the
      buffer with the element's byte and set the length. */
  method FromElemI8(elem: i8, n: nat) returns (v: Vec<i8>)
    ensures fresh(v) && fresh(v.buf) && v.Valid()
    ensures v.Contents() == Repeat(elem, n) && v.Capacity() == n
  {
    if elem == 0 {
      // A zeroed allocation holds `n` copies of the element the zero byte
      // represents, and that element is `elem`.
      ZeroByte(elem);
      ByteRoundTrip(elem);
      v := new Vec<i8>.FromZeroedBuffer(n, U8AsI8(0));
      return;
    }
    v := new Vec<i8>.WithCapacity(n);
    WriteBytes(v.buf, U8AsI8(I8AsU8(elem)), n);
    ByteRoundTrip(elem);
    ValuesInits(Repeat(elem, n));
    v.SetLen(n);
  }

  /** The `u8` path: zero from a zeroed allocation; otherwise fill the
      buffer with the byte and set the length. */
  method FromElemU8(elem: u8, n: nat) returns (v: Vec<u8>)
    ensures fresh(v) && fresh(v.buf) && v.Valid()
    ensures v.Contents() == Repeat(elem, n) && v.Capacity() == n
  {
    if elem == 0 {
      v := new Vec<u8>.FromZeroedBuffer(n, 0);
      return;
    }
    v := new Vec<u8>.WithCapacity(n);
    WriteBytes(v.buf, elem, n);
    ValuesInits(Repeat(elem, n));
    v.SetLen(n);
  }
}
