/** Fixed-width integers as the firmware uses them, over Dafny's unbounded int. */
module MachineWords {
  const TWO_TO_32: nat := 0x1_0000_0000

  // An 8-bit unit on a wire or in a buffer. Buffers are arrays of char, as in the source.
  type byte = c: char | c as int < 256 witness '\0'

  // uint8_t(c), also for a char that the source would have narrowed.
  function U8(c: char): (r: nat)
    ensures r < 256
  {
    c as int % 256
  }

  predicate InI32(x: int) {
    -0x8000_0000 <= x < 0x8000_0000
  }

  // int32_t(x). Signed overflow is undefined in C++; the model gives it the two's-complement
  // value the target's instructions compute, and every parser says exactly when it cannot happen.
  function I32(x: int): (r: int)
    ensures InI32(r)
    ensures InI32(x) ==> r == x
  {
    (x + 0x8000_0000) % TWO_TO_32 - 0x8000_0000
  }

  function I16(x: int): (r: int)
    ensures -0x8000 <= r < 0x8000
    ensures -0x8000 <= x < 0x8000 ==> r == x
    ensures (x - r) % 0x1_0000 == 0
  {
    (x + 0x8000) % 0x1_0000 - 0x8000
  }

  // The number with a sign and a magnitude.
  function Signed(negative: bool, magnitude: nat): int {
    var m: int := magnitude;
    if negative then -m else m
  }

  // x + 1 on a uint32_t counter.
  function Increment32(x: nat): (r: nat)
    requires x < TWO_TO_32
    ensures r < TWO_TO_32
    ensures x + 1 < TWO_TO_32 ==> r == x + 1
    ensures x + 1 == TWO_TO_32 ==> r == 0
  {
    (x + 1) % TWO_TO_32
  }

  // int32_t(x) differs from x by a multiple of the modulus.
  lemma I32Congruent(x: int) returns (q: int)
    ensures x == I32(x) + q * TWO_TO_32
  {
    q := (x + 0x8000_0000) / TWO_TO_32;
  }

  lemma MulMonotone(a: int, b: int, m: nat)
    requires a <= b
    ensures a * m <= b * m
  {
    assert b * m == a * m + (b - a) * m;
  }

  lemma DivModUnique(x: int, m: int, q: int, r: int)
    requires 0 <= r < m && x == q * m + r
    ensures x / m == q && x % m == r
  {
    var q', r' := x / m, x % m;
    assert x == q' * m + r';
    if q > q' {
      MulMonotone(q' + 1, q, m);
    } else if q < q' {
      MulMonotone(q + 1, q', m);
    }
  }

  lemma ModStep(x: int, m: int)
    requires m > 0
    ensures (x + m) % m == x % m
  {
    var q, r := x / m, x % m;
    assert x + m == (q + 1) * m + r;
    DivModUnique(x + m, m, q + 1, r);
  }

  lemma {:induction false} ModPeriodic(x: int, q: int, m: int)
    requires m > 0
    ensures (x + q * m) % m == x % m
    decreases if q < 0 then -q else q
  {
    if q > 0 {
      ModPeriodic(x, q - 1, m);
      assert x + q * m == (x + (q - 1) * m) + m;
      ModStep(x + (q - 1) * m, m);
    } else if q < 0 {
      ModPeriodic(x, q + 1, m);
      assert (x + q * m) + m == x + (q + 1) * m;
      ModStep(x + q * m, m);
    }
  }

  lemma I32Periodic(x: int, q: int)
    ensures I32(x + q * TWO_TO_32) == I32(x)
  {
    ModPeriodic(x + 0x8000_0000, q, TWO_TO_32);
  }

  lemma WrapTwice(x: nat, d: nat)
    ensures (x % TWO_TO_32 + d) % TWO_TO_32 == (x + d) % TWO_TO_32
  {
    ModPeriodic(x % TWO_TO_32 + d, x / TWO_TO_32, TWO_TO_32);
  }

  // Wrapping an operand early does not change a wrapped product or sum.
  lemma I32MulAdd(x: int, m: int, d: int)
    ensures I32(I32(x) * m + d) == I32(x * m + d)
  {
    var q := I32Congruent(x);
    assert x * m + d == I32(x) * m + d + (q * m) * TWO_TO_32 by {
      assert (I32(x) + q * TWO_TO_32) * m == I32(x) * m + (q * m) * TWO_TO_32;
    }
    I32Periodic(I32(x) * m + d, q * m);
  }

  lemma I32Negate(x: int)
    ensures I32(-I32(x)) == I32(-x)
  {
    I32MulAdd(x, -1, 0);
  }
}
