/** Fixed-width unsigned integers of the boot program, and the few facts about
    floor division that the clock proofs need. Dafny's `int` is unbounded, so
    every width and every truncating `as` cast is written out here. */
module MachineInts {

  const U16_LIMIT: int := 0x1_0000
  const U32_LIMIT: int := 0x1_0000_0000
  const U64_LIMIT: int := 0x1_0000_0000_0000_0000

  type u8 = x: int | 0 <= x < 0x100
  type u16 = x: int | 0 <= x < 0x1_0000
  type u32 = x: int | 0 <= x < 0x1_0000_0000
  type u64 = x: int | 0 <= x < 0x1_0000_0000_0000_0000

  /** Rust's `x as u32` on a wider unsigned value: the low 32 bits. */
  function AsU32(x: nat): (r: u32)
    ensures x < U32_LIMIT ==> r == x
    ensures (x - r) % U32_LIMIT == 0
  {
    x % U32_LIMIT
  }

  /** Rust's `x as u16` on a wider unsigned value: the low 16 bits. */
  function AsU16(x: nat): (r: u16)
    ensures x < U16_LIMIT ==> r == x
    ensures (x - r) % U16_LIMIT == 0
  {
    x % U16_LIMIT
  }

  /** Multiplying by a positive number never makes a natural number smaller. */
  lemma MulGrows(q: nat, d: nat)
    requires d > 0
    ensures q <= q * d
  {
    assert q * d == q + q * (d - 1);
  }

  /** Multiplication by a natural number is monotone. */
  lemma MulMonotone(a: nat, b: nat, r: nat)
    requires a <= b
    ensures a * r <= b * r && r * a <= r * b
  {
    assert b * r - a * r == (b - a) * r;
  }

  /** A product with a positive factor is negative only if the other is. */
  lemma NegativeFactor(x: int, r: int)
    requires r > 0
    requires x * r < 0
    ensures x < 0
  {
  }

  /** Floor division by a positive divisor: the quotient times the divisor
      is within one divisor below the dividend, and never exceeds it. */
  lemma DivBounds(x: nat, d: nat)
    requires d > 0
    ensures (x / d) * d <= x < (x / d) * d + d
    ensures 0 <= x / d <= x
  {
    MulGrows(x / d, d);
  }

  /** If `q * r <= k * r + m` with `m < r`, then `q <= k`. */
  lemma CancelBound(q: nat, k: nat, r: nat, m: nat)
    requires r > 0 && m < r
    requires q * r <= k * r + m
    ensures q <= k
  {
    assert (q - k - 1) * r == q * r - k * r - r;
    NegativeFactor(q - k - 1, r);
  }

  /** Any `q` with `q * r <= z` is at most `z / r`. */
  lemma MulLeImpliesLeDiv(q: nat, r: nat, z: nat)
    requires r > 0
    requires q * r <= z
    ensures q <= z / r
  {
    DivBounds(z, r);
    CancelBound(q, z / r, r, z - (z / r) * r);
  }

  /** Floor division is monotone in the dividend. */
  lemma DivMonotone(x: nat, y: nat, r: nat)
    requires r > 0
    requires x <= y
    ensures x / r <= y / r
  {
    DivBounds(x, r);
    MulLeImpliesLeDiv(x / r, r, y);
  }
}
