/** The PLL rate resolver. The boot program repeats one algorithm three times,
    once per PLL (PPLL in the PMU clock unit, GPLL and CPLL in the main clock
    unit, src/main.rs:118-200); here it is one function over a snapshot of a
    PLL's configuration registers, and each PLL is one application of it. */
module Pll {
  import opened MachineInts

  const MHZ: u32 := 1000 * 1000
  /** The crystal every PLL multiplies; also the Slow-mode output. */
  const OSC_HZ: u32 := 24 * MHZ
  /** Output in deep-slow mode, and for any unrecognised mode value. */
  const DEEP_SLOW_HZ: u32 := 32768
  const PLL_MODE_SLOW: u8 := 0
  const PLL_MODE_NORM: u8 := 1
  /** Scale of the fractional divider: adding `x >> 24` adds `x / 2^24`. */
  const FRAC_ONE: nat := 0x100_0000
  /** An upper bound on any fractional term added to the 64-bit rate. */
  const FRAC_TERM_LIMIT: nat := OSC_HZ * 0x100

  /** What one read of a PLL's configuration registers gives: the work mode
      (con3), the feedback divider (con0), the reference and post dividers
      (con1), the fractional divider (con2) and the DSMPD bit (con3), which
      is clear in fractional mode. */
  datatype PllSnapshot = PllSnapshot(
    mode: u8,
    fbdiv: u32,
    refdiv: u32,
    fracdiv: u32,
    dsmpd: bool,
    postdiv1: u32,
    postdiv2: u32)

  predicate DividersNonZero(s: PllSnapshot) {
    s.refdiv > 0 && s.postdiv1 > 0 && s.postdiv2 > 0
  }

  /** Normal mode divides by refdiv, postdiv1 and postdiv2 (a zero traps);
      the other modes never read the dividers. */
  predicate Resolvable(s: PllSnapshot) {
    s.mode == PLL_MODE_NORM ==> DividersNonZero(s)
  }

  /** The integer term `24 MHz * fbdiv / refdiv`. Its u64 result type is the
      proof that neither the product nor the quotient wraps in 64 bits. */
  function IntegerTerm(s: PllSnapshot): (r: u64)
    requires s.refdiv > 0
    ensures r * s.refdiv <= OSC_HZ * s.fbdiv < r * s.refdiv + s.refdiv
    ensures r <= OSC_HZ * s.fbdiv
  {
    var product := OSC_HZ * s.fbdiv;
    MulMonotone(s.fbdiv, U32_LIMIT - 1, OSC_HZ);
    assert product <= OSC_HZ * (U32_LIMIT - 1) < U64_LIMIT;
    DivBounds(product, s.refdiv);
    assert product / s.refdiv <= product;
    product / s.refdiv
  }

  /** The fractional term as the program computes it: the product of the
      crystal rate and fracdiv is overwritten by refdiv before the shift. */
  function FracTermAsWritten(s: PllSnapshot): (r: u64)
    ensures r < 0x100
    ensures s.refdiv < FRAC_ONE ==> r == 0
  {
    s.refdiv / FRAC_ONE
  }

  /** Normal mode in 64 bits: integer term plus a fractional term, then the
      two post-dividers in turn, each a floor division. */
  function NormalRate64(s: PllSnapshot, frac: nat): (r: u64)
    requires DividersNonZero(s)
    requires frac < FRAC_TERM_LIMIT
    ensures r <= IntegerTerm(s) + frac
  {
    var sum := IntegerTerm(s) + frac;
    MulMonotone(s.fbdiv, U32_LIMIT - 1, OSC_HZ);
    assert sum < U64_LIMIT;
    DivBounds(sum, s.postdiv1);
    var q := sum / s.postdiv1;
    DivBounds(q, s.postdiv2);
    q / s.postdiv2
  }

  /** The rate, in Hz, of a PLL whose registers read `s`, as the program
      computes it (src/main.rs:118-144; identically 146-172 and 174-200).
      Slow mode gives the crystal, any mode other than Slow and Normal the
      deep-slow rate, whatever the dividers hold. In Normal mode the 64-bit
      computation is exact and only the final cast truncates; the fractional
      term vanishes whenever refdiv fits in 24 bits. */
  function PllRate(s: PllSnapshot): (r: u32)
    requires Resolvable(s)
    ensures s.mode == PLL_MODE_SLOW ==> r == OSC_HZ
    ensures s.mode != PLL_MODE_SLOW && s.mode != PLL_MODE_NORM ==> r == DEEP_SLOW_HZ
    ensures s.mode == PLL_MODE_NORM && (s.dsmpd || s.refdiv < FRAC_ONE) ==>
      r == (OSC_HZ * s.fbdiv / s.refdiv / s.postdiv1 / s.postdiv2) % U32_LIMIT
  {
    if s.mode == PLL_MODE_SLOW then OSC_HZ
    else if s.mode == PLL_MODE_NORM then
      AsU32(NormalRate64(s, if s.dsmpd then 0 else FracTermAsWritten(s)))
    else DEEP_SLOW_HZ
  }

  /** As written, the fractional divider register never influences the rate:
      replacing fracdiv by any value leaves every PLL's rate unchanged. */
  lemma FracDivIgnored(s: PllSnapshot, f: u32)
    requires Resolvable(s)
    ensures PllRate(s.(fracdiv := f)) == PllRate(s)
  {
  }

  /** A fractional-mode PLL at 66 + 1/2 times the crystal, post-divided by 2:
      the program reports 792 MHz, the configuration means 798 MHz. */
  lemma FracDivCounterexample()
    ensures PllRate(PllSnapshot(PLL_MODE_NORM, 66, 1, 0x80_0000, false, 2, 1)) == 792_000_000
    ensures PllRateIntended(PllSnapshot(PLL_MODE_NORM, 66, 1, 0x80_0000, false, 2, 1)) == 798_000_000
  {
  }

  /** The fractional term the code evidently means: the product of the crystal
      rate and fracdiv, divided by refdiv like the integer term at line 128,
      then scaled down by 2^24. */
  function FracTermIntended(s: PllSnapshot): (r: u64)
    requires s.refdiv > 0
    ensures r < FRAC_TERM_LIMIT
    ensures s.fracdiv == 0 ==> r == 0
    ensures r * (s.refdiv * FRAC_ONE) <= OSC_HZ * s.fracdiv < (r + 1) * (s.refdiv * FRAC_ONE)
  {
    var product := OSC_HZ * s.fracdiv;
    MulMonotone(s.fracdiv, U32_LIMIT - 1, OSC_HZ);
    assert product <= OSC_HZ * (U32_LIMIT - 1) < U64_LIMIT;
    DivBounds(product, s.refdiv);
    var g := product / s.refdiv;
    DivMonotone(g, OSC_HZ * (U32_LIMIT - 1), FRAC_ONE);
    DivBounds(g, FRAC_ONE);
    NestedFloor(product, s.refdiv, FRAC_ONE, g, g / FRAC_ONE);
    g / FRAC_ONE
  }

  /** The rate with the fractional term corrected. In integer mode it is the
      rate the program computes. */
  function PllRateIntended(s: PllSnapshot): (r: u32)
    requires Resolvable(s)
    ensures s.mode != PLL_MODE_NORM || s.dsmpd ==> r == PllRate(s)
  {
    if s.mode == PLL_MODE_SLOW then OSC_HZ
    else if s.mode == PLL_MODE_NORM then
      AsU32(NormalRate64(s, if s.dsmpd then 0 else FracTermIntended(s)))
    else DEEP_SLOW_HZ
  }

  /** The corrected fractional term is a fraction of one feedback step: with a
      24-bit fracdiv, the integer term plus the fractional term stays at most
      the integer term for fbdiv + 1. */
  lemma {:induction false} IntendedFracWithinOneStep(s: PllSnapshot)
    requires s.refdiv > 0
    requires s.fracdiv < FRAC_ONE
    ensures IntegerTerm(s) + FracTermIntended(s) <= OSC_HZ * (s.fbdiv + 1) / s.refdiv
  {
    var r := s.refdiv;
    var a := OSC_HZ * s.fbdiv;
    var f := OSC_HZ * s.fracdiv;
    var g := f / r;
    var h := g / FRAC_ONE;
    assert h == FracTermIntended(s);
    assert g * r <= f by {
      assert f == g * r + f % r;
    }
    assert h * FRAC_ONE <= g by {
      assert g == h * FRAC_ONE + g % FRAC_ONE;
    }
    assert f < OSC_HZ * FRAC_ONE;
    // h * r * 2^24 <= g * r <= f < OSC_HZ * 2^24, so h * r < OSC_HZ.
    assert h * r * FRAC_ONE <= g * r by {
      assert (g - h * FRAC_ONE) * r >= 0;
    }
    assert h * r < OSC_HZ;
    var q := IntegerTerm(s);
    assert (q + h) * r <= a + OSC_HZ by {
      assert q * r <= a;
      assert (q + h) * r == q * r + h * r;
    }
    MulLeImpliesLeDiv(q + h, r, a + OSC_HZ);
    assert a + OSC_HZ == OSC_HZ * (s.fbdiv + 1);
  }

  /** Scaling a floor quotient `q` of `a / r` by `m`: `q * (r * m)` is at most
      `a * m`, which is at least `m` below `(q + 1) * (r * m)`. */
  lemma ScaledFloor(a: nat, r: nat, m: nat, q: nat)
    requires r > 0
    requires q * r <= a < q * r + r
    ensures q * (r * m) <= a * m
    ensures a * m + m <= (q + 1) * (r * m)
  {
    assert q * (r * m) == (q * r) * m;
    assert (q + 1) * (r * m) == (q * r + r) * m;
    MulMonotone(q * r, a, m);
    MulMonotone(a, q * r + r - 1, m);
  }

  /** A floor quotient of a floor quotient, `h` of `(f / r) / m`, is the floor
      quotient of `f / (r * m)`. */
  lemma NestedFloor(f: nat, r: nat, m: nat, g: nat, h: nat)
    requires r > 0 && m > 0
    requires g * r <= f < g * r + r
    requires h * m <= g < h * m + m
    ensures h * (r * m) <= f < (h + 1) * (r * m)
  {
    assert h * (r * m) == (h * m) * r;
    assert (h + 1) * (r * m) == (h * m + m) * r;
    MulMonotone(h * m, g, r);
    MulMonotone(g, h * m + m - 1, r);
  }

  /** The corrected rate before post-division approximates the PLL formula
      24 MHz * (fbdiv + fracdiv / 2^24) / refdiv from below, within two Hz:
      in units of 1 / (refdiv * 2^24) Hz, the integer term plus the corrected
      fractional term brackets 24 MHz * (fbdiv * 2^24 + fracdiv). */
  lemma {:induction false} IntendedFracAccuracy(s: PllSnapshot)
    requires s.refdiv > 0
    ensures (IntegerTerm(s) + FracTermIntended(s)) * (s.refdiv * FRAC_ONE)
      <= OSC_HZ * (s.fbdiv * FRAC_ONE + s.fracdiv)
    ensures OSC_HZ * (s.fbdiv * FRAC_ONE + s.fracdiv)
      < (IntegerTerm(s) + FracTermIntended(s) + 2) * (s.refdiv * FRAC_ONE)
  {
    var r := s.refdiv;
    var rf := r * FRAC_ONE;
    var a := OSC_HZ * s.fbdiv;
    var f := OSC_HZ * s.fracdiv;
    var q := IntegerTerm(s);
    var g := f / r;
    var h := g / FRAC_ONE;
    assert h == FracTermIntended(s);
    DivBounds(f, r);
    DivBounds(g, FRAC_ONE);
    ScaledFloor(a, r, FRAC_ONE, q);
    NestedFloor(f, r, FRAC_ONE, g, h);
    assert OSC_HZ * (s.fbdiv * FRAC_ONE + s.fracdiv) == a * FRAC_ONE + f;
    AddBrackets(q, h, rf, a * FRAC_ONE, f);
  }

  /** Adding a bracket `q * d <= x`, `x < (q + 1) * d` of one value to that
      of another, `h * d <= y < (h + 1) * d`, brackets the sum. */
  lemma AddBrackets(q: nat, h: nat, d: nat, x: nat, y: nat)
    requires q * d <= x < (q + 1) * d
    requires h * d <= y < (h + 1) * d
    ensures (q + h) * d <= x + y < (q + h + 2) * d
  {
    assert (q + h) * d == q * d + h * d;
    assert (q + h + 2) * d == (q + 1) * d + (h + 1) * d;
  }

  /** The corrected and the as-written rates agree when there is no
      fractional part to add and refdiv fits in 24 bits. */
  lemma IntendedAgreesWithoutFraction(s: PllSnapshot)
    requires Resolvable(s)
    requires s.fracdiv == 0 && s.refdiv < FRAC_ONE
    ensures PllRateIntended(s) == PllRate(s)
  {
  }

  /** 24 MHz * 66 / 1 / 2 / 1 in integer mode is 792 MHz. */
  lemma IntegerModeExample()
    ensures PllRate(PllSnapshot(PLL_MODE_NORM, 66, 1, 0, true, 2, 1)) == 792_000_000
  {
  }
}
