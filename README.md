# RK3399 boot clocks and GMAC power-down, modelled in Dafny

This project models the integer clock arithmetic and the power-domain
handshake of a bare-metal RK3399 boot program (`src/main.rs`):

- **PLL rate resolver** (`pll.dfy`, module `Pll`). The program resolves the
  PPLL, GPLL and CPLL with three copies of one algorithm. Here it is one
  function, `PllRate`, over a `PllSnapshot` of a PLL's registers: work mode,
  fbdiv, refdiv, fracdiv, the DSMPD bit and the two post-dividers. Slow mode
  gives 24 MHz. Normal mode computes `24 MHz * fbdiv / refdiv` in 64 bits,
  adds a fractional term when DSMPD is clear, divides by both post-dividers
  and truncates to u32. Any other mode gives 32768 Hz. The fractional term
  is modelled as the code computes it; see Findings.
- **I2C source clocks and divider synthesis** (`i2c_clock.dfy`, module
  `I2cClock`). A bus clock is a PLL rate divided by a register field plus
  one. I2C0 and I2C4 use the PPLL. I2C1 uses the GPLL when its select bit is
  set, and the CPLL otherwise. `rk_ceil` is ceiling division through 64
  bits, and `i2c_get_div` splits a count into a high and a low half.
  `set_clk` writes the halves of `rk_ceil(rate, scl * 8) - 2` to the
  controller's CLKDIV register. That register is the class `I2cController`.
- **GMAC power-down sequence** (`power_domain.dfy`, module `PowerDomain`).
  The method sets the bus-idle request bit. It then polls idle status or
  acknowledge at most 999 times (`1..1000`) and notes a timeout, but carries
  on either way. Next it sets the power-down enable bit, issues a barrier,
  and polls the power status the same way. The PMU registers are the class
  `Pmu`. Each status read returns the next bit of a given observation
  sequence. Each control-bit update, each poll iteration and the barrier is
  appended to an access trace. The two status reads of one bus-poll
  iteration make a single entry.
- `machine_ints.dfy` (module `MachineInts`) holds the fixed-width integer
  types, the truncating casts and a few facts about floor division.

Widths are explicit. Each 64-bit function result has type `u64`. The 64-bit
intermediates are unbounded integers: the products and sums of
`IntegerTerm`, `NormalRate64`, `FracTermIntended` and `RkCeil`. Each has an
asserted bound below 2^64, and each quotient of one has a proved bound. Either way the verifier proves that no 64-bit computation wraps. The
truncating casts, the final `as u32` of a PLL rate and the `as u16` of the
CLKDIV halves, are written out as `AsU32` and `AsU16`. The `as u32` in
`rk_ceil` is not. `RkCeil` proves that its quotient never exceeds the
dividend, so that cast loses nothing.

The program understood here differs from a plain reading of its intent in
two places:

- The `div < 0` guard in `set_clk` reads like a clamp to `(0, 0)`. It cannot
  fire, because `div` is unsigned. The model follows the code: `SetClk`
  requires a ceiling of at least 2, which a debug build needs to avoid a
  panic. The clamp appears only as the corrected definition `ClampedFields`.
- The fractional PLL term is modelled as written, `refdiv >> 24`, and not as
  the evident intent. The I2C clocks and `SetClk` use that as-written rate.
  `PllRateIntended` agrees with it whenever DSMPD is set, which is integer
  mode.

## Model

| member | source | states |
|---|---|---|
| `Pll.PllRate` | src/main.rs:118-200 | Slow mode gives exactly 24 MHz and any mode other than Slow and Normal gives exactly 32768 Hz, whatever the dividers hold. In Normal mode with DSMPD set, or with refdiv below 2^24, the rate is `24 MHz * fbdiv / refdiv / postdiv1 / postdiv2` with floor divisions in unbounded arithmetic, truncated to 32 bits only at the end. Only Normal mode requires non-zero dividers. |
| `Pll.IntegerTerm` | src/main.rs:127-128 | The integer term is the floor of `24 MHz * fbdiv / refdiv`: it times refdiv is within one refdiv below the product. It never exceeds the product and fits in 64 bits. |
| `Pll.FracTermAsWritten` | src/main.rs:131-135 | The fractional term as written, `refdiv >> 24`, is below 256 and is 0 whenever refdiv fits in 24 bits. |
| `Pll.NormalRate64` | src/main.rs:127-140 | The 64-bit rate after both post-dividers never exceeds the integer term plus the fractional term, so no step wraps. |
| `Pll.FracDivIgnored` | src/main.rs:132-133 | As written, changing the fractional divider never changes the rate of any PLL. |
| `Pll.FracDivCounterexample` | src/main.rs:131-136 | For fbdiv 66, refdiv 1, fracdiv 2^23, postdiv 2 and 1 in fractional mode, the program gives 792 MHz but the corrected rate is 798 MHz. |
| `Pll.FracTermIntended` | src/main.rs:132-135 | The corrected fractional term is the floor of `24 MHz * fracdiv / (refdiv * 2^24)`: multiplied by `refdiv * 2^24` it is within one such unit below `24 MHz * fracdiv`. It is below 24 MHz * 256 and is 0 when fracdiv is 0. |
| `Pll.PllRateIntended` | src/main.rs:118-144 | The corrected rate equals the as-written rate in every mode but fractional Normal mode. |
| `Pll.IntendedFracWithinOneStep` | src/main.rs:132-135 | For a 24-bit fracdiv, the integer term plus the corrected fractional term is at most `24 MHz * (fbdiv + 1) / refdiv`. That is, the fraction is less than one feedback step. |
| `Pll.IntendedFracAccuracy` | src/main.rs:127-135 | The integer term plus the corrected fractional term approximates the PLL formula `24 MHz * (fbdiv + fracdiv / 2^24) / refdiv` from below, to within 2 Hz. Multiplied by `refdiv * 2^24`, it is at most `24 MHz * (fbdiv * 2^24 + fracdiv)`, and that sum plus 2 is above it. |
| `Pll.IntendedAgreesWithoutFraction` | src/main.rs:131-136 | With fracdiv 0 and refdiv below 2^24, the corrected and as-written rates agree in every mode. |
| `Pll.IntegerModeExample` | src/main.rs:125-140 | 24 MHz with fbdiv 66, refdiv 1, postdiv1 2 and postdiv2 1 in integer mode gives 792 MHz. |
| `I2cClock.BusClock` | src/main.rs:202-232 | A bus clock is the floor of its source PLL's rate divided by its divider field plus one, so the divisor is never zero. The source PLL is the PPLL for I2C0 and I2C4. For I2C1 it is the GPLL or the CPLL, as the select bit says. It requires the PPLL, which every getter resolves first, and the source PLL to be resolvable. |
| `I2cClock.DividedRate` | src/main.rs:206-207 | `rate / (field + 1)` is the floor quotient, and equals rate when the field is 0. |
| `I2cClock.I2c1FollowsSelect` | src/main.rs:210-224 | I2C1's clock does not depend on the CPLL when the select bit is set, nor on the GPLL when it is clear. The PPLL it resolves never influences it. |
| `I2cClock.RkCeil` | src/main.rs:234-239 | For `b > 0`, `rk_ceil(a, b) * b >= a`, and for `a > 0` also `(rk_ceil(a, b) - 1) * b < a`. The quotient never exceeds a, so the cast to u32 loses nothing. |
| `I2cClock.HalfSplit` | src/main.rs:241-247 | `i2c_get_div(n) = (h, l)` has `h + l == n` and `l <= h <= l + 1`. |
| `I2cClock.HalfSplitUnique` | src/main.rs:241-247 | Those two properties determine the split. An even n gives `(n/2, n/2)` and an odd n gives `((n+1)/2, n/2)`. |
| `I2cClock.CeilAtLeastTwoIff` | src/main.rs:252 | `rk_ceil(rate, scl * 8) >= 2`, so the `- 2` does not underflow, exactly when rate exceeds `scl * 8`. |
| `I2cClock.ClkDivisor` | src/main.rs:252 | The divider d is the least value with `rate <= (d + 2) * scl * 8`. That is, the SCL rate `rate / (8 * (d + 2))` does not exceed the target, and `(d + 1) * scl * 8 < rate`. |
| `I2cClock.ClkDivFields` | src/main.rs:252-261 | The CLKDIV fields that `set_clk` writes. When the divider is at most 131070, the two fields add up to the divider and differ by at most one, the high one never smaller. `WrittenFieldsMeetTarget` shows that larger dividers break this. |
| `I2cClock.WrittenFieldsMeetTarget` | src/main.rs:252-262 | The u16 casts of the halves are lossless exactly when the divider is at most 131070. The fields written then satisfy `l <= h <= l + 1` and bracket the target SCL rate as the divider does. |
| `I2cClock.ClkDivExample` | src/main.rs:249-262 | A 792 MHz source clock with a 100 kHz bus gives divider 988, written as (494, 494). |
| `I2cClock.WrappedFields` | src/main.rs:252-257 | The release-build computation, where the subtraction wraps, equals the written fields wherever the ceiling is at least 2. |
| `I2cClock.UnderflowCounterexample` | src/main.rs:252-257 | For an 800 kHz source clock and a 100 kHz bus, the ceiling is 1 and a release build writes (0, 65535). The clamp would write (0, 0). |
| `I2cClock.ClampedFields` | src/main.rs:253-257 | The corrected clamp gives (0, 0) when rate is at most `scl * 8`. Otherwise it gives exactly what `set_clk` writes. Both fields are also 0 whenever rate is below `2 * scl * 8`, where the ceiling is at most 2. |
| `I2cClock.I2cController.WriteClkDiv` | src/main.rs:259-262 | Writing CLKDIV sets both fields to the given halves. |
| `I2cClock.SetClk` | src/main.rs:249-279 | `i2c4_set_clk`/`i2c1_set_clk` leave CLKDIV holding the u16 casts of the halves of `rk_ceil(clock, scl * 8) - 2` for that bus's clock. They require `scl * 8` to be non-zero and to fit in u32, and the ceiling to be at least 2. |
| `MachineInts.AsU32` | src/main.rs:140 | `as u32` keeps a value below 2^32 unchanged, and otherwise differs from it by a multiple of 2^32. |
| `MachineInts.AsU16` | src/main.rs:260-261 | `as u16` keeps a value below 2^16 unchanged, and otherwise differs from it by a multiple of 2^16. |
| `PowerDomain.PollReads` | src/main.rs:519-529 | A poll bounded by `bound` iterations makes at most `bound` reads. |
| `PowerDomain.PollStopsAtFirstHit` | src/main.rs:519-529 | If the first read to see the bit is iteration k, with k below the bound, the poll makes exactly k + 1 reads and succeeds. |
| `PowerDomain.PollExhausts` | src/main.rs:545-551 | If no read within the bound sees the bit, the poll makes all `bound` reads and fails. |
| `PowerDomain.OffSequenceOrder` | src/main.rs:516-551 | In the access trace, the idle request comes first and the bus-idle reads follow. Then come the power-down write and the barrier, and the power-status reads only after the barrier. |
| `PowerDomain.Pmu.RequestBusIdle` | src/main.rs:516 | Sets the GMAC idle-request bit and records the write. |
| `PowerDomain.Pmu.SampleBusIdle` | src/main.rs:520-521 | Returns the next observed idle status and acknowledge bits, and advances the read count. |
| `PowerDomain.Pmu.EnablePowerDown` | src/main.rs:539 | Sets the GMAC power-down enable bit and records the write. |
| `PowerDomain.Pmu.DataSyncBarrier` | src/main.rs:541 | Records the barrier in the access trace and changes nothing else. |
| `PowerDomain.Pmu.SamplePowerStatus` | src/main.rs:546 | Returns the next observed power-status bit, and advances the read count. |
| `PowerDomain.AwaitBusIdle` | src/main.rs:518-529 | Makes `PollReads` reads, at most 999, and stops at the first read that sees idle or ack. `bus_timeout` ends false exactly when some read within the bound did. |
| `PowerDomain.AwaitPowerOff` | src/main.rs:544-551 | The same for the power-status bit and `pd_timeout`. |
| `PowerDomain.GmacPowerOff` | src/main.rs:503-558 | Both control bits end set, so power-down is enabled whether or not the bus phase timed out. Each timeout flag and read count is as its poll specifies. The access trace is request, bus reads, power-down, barrier, then power reads. |

## Left out

- INA219 voltage and current reporting (src/main.rs:356-406): it needs `f32` arithmetic and I2C transfers.
- PMIC and regulator traffic (src/main.rs:416-467), which is raw register pokes through the external I2C driver. The I2C wire protocol is not part of this model either.
- Pin-mux writes, the PMUSGRF register layout and its raw-pointer write (src/main.rs:63-114, 288-314, 322-329). These are constant stores with no logic.
- M0 co-processor start-up (src/main.rs:334-342): the `m0` module is not part of this model.
- Console output, the `nop` busy loop (src/main.rs:408-411) and the status reads made only for printing (src/main.rs:505, 532-535, 553-558). These reads are not counted against the observation sequences.
- The `dsb sy` barriers are ordering events in the access trace. Their memory-ordering effect is not modelled.
- `clock_init`, `lang_items`, `serial` and the register crate are not part of this model. Register reads are parameters.
- Control flow of `main`: the `return` statements at src/main.rs:413 and 483 leave the GMAC sequence unreachable as the program stands. The sequence is modelled as an operation of its own, whatever leads to it.
- The mirror sequence that powers a domain back on, and the other power domains, are not in the program.
- `I2cClock.BusClock`: the clock-select divider fields are taken as 8-bit values. The register crate that fixes their widths is not part of this model. Under that assumption the `+ 1` cannot overflow.
- `PowerDomain.Pmu.SampleBusIdle`: a read past the end of the given observations sees the bit clear. The hardware has no such end.
- `PowerDomain.GmacPowerOff`: only the GMAC bits of the PMU registers are modelled. That the `modify` calls preserve the other bits is not stated.
- `I2cClock.SetClk`, `I2cClock.WrappedFields`: `scl * 8` must not overflow u32 (`SclRateValid`). A debug build panics on that overflow and a release build wraps, and neither behaviour is modelled. Both call sites (src/main.rs:304, 318) pass 100 kHz.
- `I2cClock.SetClk`: a ceiling below 2 is a precondition. This follows the debug build, where the subtraction panics. The release build's wrap-around is modelled separately, in `WrappedFields`.

## Findings

| source | as written | input that shows it | evidently intended | confidence | as-written member | corrected member |
|---|---|---|---|---|---|---|
| src/main.rs:132-135 (also 160-163, 188-191) | The crystal-times-fracdiv product is overwritten by refdiv, so the term added is `refdiv >> 24` and fracdiv never matters | mode 1, DSMPD clear, fbdiv 66, refdiv 1, fracdiv 0x800000, postdiv1 2, postdiv2 1: the program gives 792 MHz | divide the product by refdiv, as line 128 does for the integer term, then shift by 24: 798 MHz. Another reading shifts `24 MHz * fracdiv` by 24 without dividing by refdiv. The two readings agree when refdiv is 1, as in this input, so 798 MHz holds either way. | high; not executed | `Pll.FracDivCounterexample` | `Pll.IntendedFracAccuracy` |
| src/main.rs:252-257 (also 268-273) | `div` is u32, so `div < 0` never holds and a ceiling below 2 underflows (panic in debug, wrap in release) | source clock 800 kHz, SCL 100 kHz: ceiling 1, divider wraps to 2^32 - 1 and (0, 65535) is written | clamp both halves to 0 | high; not executed | `I2cClock.UnderflowCounterexample` | `I2cClock.ClampedFields` |

The rest of the model keeps the program's behaviour, as the as-written
definitions give it. The corrected definitions agree with the program in
these cases only:

- `PllRateIntended` equals `PllRate` outside fractional Normal mode, where
  the two differ (798 against 792 MHz in `FracDivCounterexample`).
  `IntendedAgreesWithoutFraction` shows they also agree when fracdiv is 0
  and refdiv is below 2^24.
- `ClampedFields` equals what `SetClk` writes wherever the ceiling is at
  least 2.
