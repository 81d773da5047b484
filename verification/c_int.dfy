/** The parts of C++ integer semantics the program relies on: division that
    truncates toward zero, 32-bit unsigned wrap-around and the conversion of a
    32-bit pattern back to a signed `int`. Dafny's own integers are unbounded
    and its `/` is Euclidean, so each of these is written out here. */
module CInt {

  const TWO_31: int := 0x8000_0000
  const TWO_32: int := 0x1_0000_0000

  /** Values of C++ `unsigned int`. */
  type Uint32 = x: int | 0 <= x < TWO_32

  /** Values of C++ `int`. */
  type Int32 = x: int | -TWO_31 <= x < TWO_31

  function Min(a: int, b: int): (r: int)
    ensures r <= a && r <= b
    ensures r == a || r == b
  {
    if b < a then b else a
  }

  function Max(a: int, b: int): (r: int)
    ensures a <= r && b <= r
    ensures r == a || r == b
  {
    if a < b then b else a
  }

  function Abs(a: int): (r: nat)
    ensures r == a || r == -a
  {
    if a < 0 then -a else a
  }

  /** C++ `a / d` for a positive divisor: the quotient rounded toward zero. */
  function TruncDiv(a: int, d: int): (q: int)
    requires 0 < d
    ensures 0 <= a ==> 0 <= q * d <= a < q * d + d
    ensures a < 0 ==> q * d - d < a <= q * d <= 0
  {
    if 0 <= a then
      QuotientOfNonNegative(a, d);
      a / d
    else
      QuotientOfNegative(a, d);
      -((-a) / d)
  }

  lemma QuotientOfNonNegative(a: int, d: int)
    requires 0 <= a && 0 < d
    ensures 0 <= (a / d) * d <= a < (a / d) * d + d
  {
    FloorQuotient(a, d);
    MulMonotone(0, a / d, d);
  }

  lemma QuotientOfNegative(a: int, d: int)
    requires a < 0 < d
    ensures var q := -((-a) / d); q * d - d < a <= q * d <= 0
  {
    var q' := (-a) / d;
    FloorQuotient(-a, d);
    MulMonotone(0, q', d);
    assert (-q') * d == -(q' * d);
  }

  /** `k + 1` copies of `s` are `k` copies and one more, and none of them is negative. */
  lemma ProductStep(k: nat, s: nat)
    ensures 0 <= k * s <= k * s + s == (k + 1) * s
  {
    MulMonotone(0, k, s);
  }

  /** The value an arithmetic result takes in C++ `unsigned int`: reduced modulo 2^32. */
  function U32(v: int): (r: Uint32)
    ensures (v - r) % TWO_32 == 0
    ensures 0 <= v < TWO_32 ==> r == v
  {
    v % TWO_32
  }

  /** Conversion of an integer to C++ `int`: the two's-complement reading of
      its low 32 bits (the value congruent to `v` in the `int` range). */
  function I32(v: int): (r: Int32)
    ensures (v - r) % TWO_32 == 0
    ensures -TWO_31 <= v < TWO_31 ==> r == v
  {
    var u := v % TWO_32;
    if u < TWO_31 then u else u - TWO_32
  }

  /** An `int` expression evaluated in `unsigned int` and converted back to
      `int` keeps its value whenever that value fits in `int`. */
  lemma UnsignedRoundTrip(v: int)
    ensures -TWO_31 <= v < TWO_31 ==> I32(U32(v)) == v
  {
    if -TWO_31 <= v < 0 {
      assert U32(v) == v + TWO_32;
    }
  }

  /** Adding to an already wrapped `unsigned` value wraps to the same result
      as adding to the exact value: `(a mod 2^32 + c) mod 2^32 == (a + c) mod 2^32`. */
  lemma U32AddWrapped(a: int, c: int)
    ensures U32(U32(a) + c) == U32(a + c)
  {
    var q := a / TWO_32;
    assert a == q * TWO_32 + U32(a);
    DivModUnique(a + c - U32(a + c) + U32(a + c), TWO_32, (a + c) / TWO_32, U32(a + c));
    DivModUnique(U32(a) + c, TWO_32, (a + c) / TWO_32 - q, U32(a + c));
  }

  /** `offset + index` on an `unsigned` offset that was itself wrapped: the
      result is the exact sum reduced modulo 2^32, and the exact sum when it
      fits in 32 bits. */
  lemma U32AddExact(a: int, c: int)
    ensures (a + c - U32(U32(a) + c)) % TWO_32 == 0
    ensures 0 <= a && 0 <= c && a + c < TWO_32 ==> U32(U32(a) + c) == a + c
  {
    U32AddWrapped(a, c);
  }

  /** Multiplying by a non-negative factor keeps the order. */
  lemma MulMonotone(x: int, y: int, d: int)
    requires 0 <= d
    ensures x <= y ==> x * d <= y * d
  {
    assert y * d - x * d == (y - x) * d;
  }

  /** Division recovers quotient and remainder of `q * d + r` when `0 <= r < d`. */
  lemma DivModUnique(a: int, d: int, q: int, r: int)
    requires 0 < d && 0 <= r < d && a == q * d + r
    ensures a / d == q && a % d == r
  {
    var q' := a / d;
    var k := q - q';
    assert a == q' * d + a % d;
    assert k * d == q * d - q' * d;
    MulMonotone(1, k, d);
    MulMonotone(k, -1, d);
    assert k == 0;
  }

  /** For a positive divisor, `n / d` is the largest multiple count not exceeding `n`. */
  lemma FloorQuotient(n: int, d: int)
    requires 0 < d
    ensures (n / d) * d <= n < (n / d) * d + d
  {
    assert n == (n / d) * d + n % d;
  }

  /** Scaling by a factor at most the divisor keeps the quotient at most the scaled value. */
  lemma ScaledQuotientAtMost(k: nat, v: nat, d: int)
    requires 0 < d
    ensures k <= d ==> (k * v) / d <= v
  {
    if k <= d {
      var q := (k * v) / d;
      FloorQuotient(k * v, d);
      MulMonotone(k, d, v);
      assert k * v <= v * d;
      MulMonotone(v + 1, q, d);
      assert (v + 1) * d == v * d + d;
    }
  }
}
