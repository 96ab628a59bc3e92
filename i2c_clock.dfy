/** I2C source clocks and SCL divider synthesis (src/main.rs:202-279).
    Each I2C controller's source clock is a PLL rate divided by a clock-unit
    field plus one; `set_clk` turns a source clock and a target SCL rate into
    the high and low half-period counts of the controller's CLKDIV register. */
module I2cClock {
  import opened MachineInts
  import opened Pll

  datatype I2cBus = I2c0 | I2c1 | I2c4

  /** The clock-unit registers the I2C clock getters read: the three PLLs,
      the divider fields of PMUCRU clksel_con2 (I2C0) and clksel_con3 (I2C4)
      and of CRU clksel_con61 (I2C1), and clksel_con61's PLL select bit. */
  datatype ClockRegs = ClockRegs(
    ppll: PllSnapshot,
    gpll: PllSnapshot,
    cpll: PllSnapshot,
    i2c0DivCon: u8,
    i2c4DivCon: u8,
    i2c1DivCon: u8,
    i2c1PllSel: bool)

  /** The PLL feeding a bus: I2C0 and I2C4 run from the PPLL; I2C1 from the
      GPLL when its select bit is set and from the CPLL otherwise. */
  function SourcePll(bus: I2cBus, regs: ClockRegs): PllSnapshot {
    match bus
    case I2c0 => regs.ppll
    case I2c4 => regs.ppll
    case I2c1 => if regs.i2c1PllSel then regs.gpll else regs.cpll
  }

  /** The divider field of a bus's clock-select register. */
  function DivCon(bus: I2cBus, regs: ClockRegs): u8 {
    match bus
    case I2c0 => regs.i2c0DivCon
    case I2c4 => regs.i2c4DivCon
    case I2c1 => regs.i2c1DivCon
  }

  /** Every getter resolves the PPLL first, I2C1 only to discard it, and
      then the PLL it divides; a zero divider in either traps. */
  predicate GetterDefined(bus: I2cBus, regs: ClockRegs) {
    Resolvable(regs.ppll) && Resolvable(SourcePll(bus, regs))
  }

  /** `rkclk_get_i2c{0,1,4}_clk`: the source PLL's rate divided, rounding
      down, by the divider field plus one, which is never zero. */
  function BusClock(bus: I2cBus, regs: ClockRegs): (r: u32)
    requires GetterDefined(bus, regs)
    ensures r * (DivCon(bus, regs) + 1) <= PllRate(SourcePll(bus, regs))
    ensures PllRate(SourcePll(bus, regs)) < r * (DivCon(bus, regs) + 1) + DivCon(bus, regs) + 1
    ensures DivCon(bus, regs) == 0 ==> r == PllRate(SourcePll(bus, regs))
  {
    DividedRate(PllRate(SourcePll(bus, regs)), DivCon(bus, regs))
  }

  /** A rate divided, rounding down, by a divider field plus one. */
  function DividedRate(rate: u32, divCon: u8): (r: u32)
    ensures r * (divCon + 1) <= rate < r * (divCon + 1) + divCon + 1
    ensures divCon == 0 ==> r == rate
  {
    DivBounds(rate, divCon + 1);
    rate / (divCon + 1)
  }

  /** I2C1 follows its select bit: when it is set the CPLL registers do not
      matter, when it is clear the GPLL registers do not. */
  lemma I2c1FollowsSelect(regs: ClockRegs, other: PllSnapshot)
    requires GetterDefined(I2c1, regs)
    ensures regs.i2c1PllSel ==>
      BusClock(I2c1, regs.(cpll := other)) == BusClock(I2c1, regs)
    ensures !regs.i2c1PllSel ==>
      BusClock(I2c1, regs.(gpll := other)) == BusClock(I2c1, regs)
    ensures Resolvable(other) ==>
      BusClock(I2c1, regs.(ppll := other)) == BusClock(I2c1, regs)
  {
  }

  /** `rk_ceil`: ceiling division through 64 bits. The quotient never exceeds
      the dividend, so the cast back to u32 loses nothing. */
  function RkCeil(a: u32, b: u32): (r: u32)
    requires b > 0
    ensures r * b >= a
    ensures a > 0 ==> (r - 1) * b < a
    ensures r <= a
  {
    var sum := a + b - 1;
    assert sum < U64_LIMIT;
    DivBounds(sum, b);
    var q := sum / b;
    assert (q - 1) * b == q * b - b;
    assert q <= a by {
      if a == 0 {
        CancelBound(q, 0, b, b - 1);
      } else {
        assert (a - 1) * (b - 1) == a * b - a - b + 1;
        MulMonotone(0, a - 1, b - 1);
        CancelBound(q, a, b, 0);
      }
    }
    q
  }

  /** `i2c_get_div`: split a count into a high and a low half; the high half
      takes the extra one of an odd count. */
  function HalfSplit(n: u32): (r: (u32, u32))
    ensures r.0 + r.1 == n
    ensures r.1 <= r.0 <= r.1 + 1
  {
    if n % 2 == 0 then (n / 2, n / 2) else (RkCeil(n, 2), n / 2)
  }

  /** The two properties of the split determine it: an even count halves
      evenly, an odd one gives ((n + 1) / 2, n / 2). */
  lemma HalfSplitUnique(n: u32, h: nat, l: nat)
    requires h + l == n && l <= h <= l + 1
    ensures (h, l) == HalfSplit(n)
    ensures n % 2 == 0 ==> h == l == n / 2
    ensures n % 2 == 1 ==> h == (n + 1) / 2 && l == n / 2
  {
  }

  /** The `scl_rate * 8` of `set_clk` neither overflows u32 nor is zero. */
  predicate SclRateValid(scl: u32) {
    0 < scl && scl * 8 < U32_LIMIT
  }

  /** `rk_ceil(rate, scl * 8) - 2` does not underflow exactly when the source
      clock is faster than eight times the target SCL rate. */
  lemma {:induction false} CeilAtLeastTwoIff(rate: u32, scl: u32)
    requires SclRateValid(scl)
    ensures RkCeil(rate, scl * 8) >= 2 <==> rate > scl * 8
  {
    var b := scl * 8;
    var q := RkCeil(rate, b);
    if rate > b {
      if q <= 1 {
        MulMonotone(q, 1, b);
        assert false;
      }
    } else if rate > 0 {
      assert (q - 1) * b < rate <= b;
      if q >= 2 {
        MulMonotone(1, q - 1, b);
        assert false;
      }
    }
  }

  /** What `set_clk` needs of its inputs: a valid SCL rate, and a ceiling of
      at least 2, since the u32 subtraction below it would underflow. */
  predicate DivisorDefined(rate: u32, scl: u32) {
    SclRateValid(scl) && RkCeil(rate, scl * 8) >= 2
  }

  /** The divider `rk_ceil(rate, scl * 8) - 2`: the least value for which the
      controller's SCL rate, rate / (8 * (div + 2)), does not exceed the
      target. */
  function ClkDivisor(rate: u32, scl: u32): (div: u32)
    requires DivisorDefined(rate, scl)
    ensures rate <= (div + 2) * (scl * 8)
    ensures (div + 1) * (scl * 8) < rate
  {
    RkCeil(rate, scl * 8) - 2
  }

  /** The CLKDIV fields `set_clk` writes: the halves of the divider, each
      cast to u16. */
  function ClkDivFields(rate: u32, scl: u32): (r: (u16, u16))
    requires DivisorDefined(rate, scl)
    ensures ClkDivisor(rate, scl) <= MAX_EXACT_DIVISOR ==>
      r.0 + r.1 == ClkDivisor(rate, scl) && r.1 <= r.0 <= r.1 + 1
  {
    var halves := HalfSplit(ClkDivisor(rate, scl));
    (AsU16(halves.0), AsU16(halves.1))
  }

  /** The largest divider whose halves both fit the 16-bit CLKDIV fields. */
  const MAX_EXACT_DIVISOR: nat := 2 * (U16_LIMIT - 1)

  /** The u16 casts are lossless exactly when the divider is at most
      MAX_EXACT_DIVISOR; then the written fields split the divider as
      `i2c_get_div` does and program an SCL rate at most the target. */
  lemma {:induction false} WrittenFieldsMeetTarget(rate: u32, scl: u32)
    requires DivisorDefined(rate, scl)
    ensures ClkDivFields(rate, scl) == HalfSplit(ClkDivisor(rate, scl))
      <==> ClkDivisor(rate, scl) <= MAX_EXACT_DIVISOR
    ensures ClkDivisor(rate, scl) <= MAX_EXACT_DIVISOR ==>
      var (h, l) := ClkDivFields(rate, scl);
      l <= h <= l + 1 &&
      rate <= (h + l + 2) * (scl * 8) && (h + l + 1) * (scl * 8) < rate
  {
    var div := ClkDivisor(rate, scl);
    var halves := HalfSplit(div);
    if div <= MAX_EXACT_DIVISOR {
      assert halves.0 < U16_LIMIT && halves.1 < U16_LIMIT;
    } else {
      assert halves.0 >= U16_LIMIT;
      assert AsU16(halves.0) != halves.0;
    }
  }

  /** A 792 MHz source clock and a 100 kHz bus: ceiling 990, divider 988,
      written as 494 and 494. */
  lemma ClkDivExample()
    ensures DivisorDefined(792_000_000, 100_000)
    ensures ClkDivisor(792_000_000, 100_000) == 988
    ensures ClkDivFields(792_000_000, 100_000) == (494, 494)
  {
  }

  /** The divider as a release build computes it, where the u32 subtraction
      wraps round instead of trapping. */
  function WrappedFields(rate: u32, scl: u32): (r: (u16, u16))
    requires SclRateValid(scl)
    ensures DivisorDefined(rate, scl) ==> r == ClkDivFields(rate, scl)
  {
    var ceiling := RkCeil(rate, scl * 8);
    var div := (ceiling - 2) % U32_LIMIT;
    assert ceiling >= 2 ==> div == ceiling - 2;
    var halves := HalfSplit(div);
    (AsU16(halves.0), AsU16(halves.1))
  }

  /** The `div < 0` clamp cannot catch an underflow: an 800 kHz source clock
      and a 100 kHz bus give a ceiling of 1, the divider wraps to 2^32 - 1,
      and the fields written are 0 and 65535 instead of 0 and 0. */
  lemma UnderflowCounterexample()
    ensures SclRateValid(100_000)
    ensures RkCeil(800_000, 100_000 * 8) == 1
    ensures WrappedFields(800_000, 100_000) == (0, 65535)
    ensures ClampedFields(800_000, 100_000) == (0, 0)
  {
    assert (800_000 + 800_000 - 1) / 800_000 == 1;
    assert HalfSplit(U32_LIMIT - 1) == (0x8000_0000, 0x7FFF_FFFF);
  }

  /** The clamp the code evidently means: no divider if the ceiling is below
      2, otherwise exactly what `set_clk` writes. */
  function ClampedFields(rate: u32, scl: u32): (r: (u16, u16))
    requires SclRateValid(scl)
    ensures rate <= scl * 8 ==> r == (0, 0)
    ensures rate < 2 * (scl * 8) ==> r == (0, 0)
    ensures rate > scl * 8 ==> DivisorDefined(rate, scl) && r == ClkDivFields(rate, scl)
  {
    CeilAtLeastTwoIff(rate, scl);
    var b := scl * 8;
    var ceiling := RkCeil(rate, b);
    assert rate < 2 * b ==> ceiling <= 2 by {
      if 0 < rate < 2 * b {
        CancelBound(ceiling - 1, 1, b, b - 1);
      }
    }
    if RkCeil(rate, scl * 8) < 2 then (0, 0) else ClkDivFields(rate, scl)
  }

  /** The CLKDIV register of an I2C controller: the high and low
      half-period counts of SCL. */
  class I2cController {
    var clkdivh: u16
    var clkdivl: u16

    constructor ()
      ensures clkdivh == 0 && clkdivl == 0
    {
      clkdivh, clkdivl := 0, 0;
    }

    /** `rki2c_clkdiv.write`: both fields at once. */
    method WriteClkDiv(h: u16, l: u16)
      modifies this
      ensures clkdivh == h && clkdivl == l
    {
      clkdivh, clkdivl := h, l;
    }
  }

  /** `i2c4_set_clk` and `i2c1_set_clk`: read the bus's source clock, derive
      the divider for `scl` and write its halves to CLKDIV. */
  method SetClk(ctrl: I2cController, bus: I2cBus, regs: ClockRegs, scl: u32)
    requires bus == I2c4 || bus == I2c1
    requires GetterDefined(bus, regs)
    requires DivisorDefined(BusClock(bus, regs), scl)
    modifies ctrl
    ensures (ctrl.clkdivh, ctrl.clkdivl) == ClkDivFields(BusClock(bus, regs), scl)
  {
    var i2cRate := BusClock(bus, regs);
    var div := RkCeil(i2cRate, scl * 8) - 2;
    var halves := HalfSplit(div);
    ctrl.WriteClkDiv(AsU16(halves.0), AsU16(halves.1));
  }
}
