/** The GMAC power-domain off sequence (src/main.rs:503-558): request bus
    idle, poll the idle status and acknowledge bits a bounded number of
    times, enable power-down whatever the poll found, issue a barrier, and
    poll the power status the same way. The PMU's status registers are
    driven by given sequences of observed bits, one per read. */
module PowerDomain {

  const MAX_WAIT_COUNT: nat := 1000
  /** `for _ in 1..MAX_WAIT_COUNT` runs MAX_WAIT_COUNT - 1 iterations. */
  const MAX_POLLS: nat := MAX_WAIT_COUNT - 1

  /** The GMAC bits of PMU_BUS_IDLE_ST and PMU_BUS_IDLE_ACK, as one poll
      iteration reads them. */
  datatype BusIdleSample = BusIdleSample(idle: bool, ack: bool)

  /** The register accesses of the off sequence, in program order. */
  datatype Access =
    | IdleRequested
    | BusIdleSampled
    | PowerDownEnabled
    | Barrier
    | PowerStatusSampled

  /** Whether the i-th read sees the awaited bit set; reads past the given
      observations see it clear. */
  predicate SeenAt(hits: seq<bool>, i: nat) {
    i < |hits| && hits[i]
  }

  /** The bus phase succeeds on a read that sees idle status or acknowledge. */
  function BusHits(obs: seq<BusIdleSample>): seq<bool> {
    seq(|obs|, i requires 0 <= i < |obs| => obs[i].idle || obs[i].ack)
  }

  /** Some read among the `bound` reads from read `from` on sees the bit. */
  predicate PollSucceeds(hits: seq<bool>, from: nat, bound: nat) {
    exists j :: from <= j < from + bound && SeenAt(hits, j)
  }

  /** How many reads a poll of at most `bound` iterations makes, starting at
      read `from`: it stops after the first read that sees the bit. */
  function PollReads(hits: seq<bool>, from: nat, bound: nat): (n: nat)
    ensures n <= bound
    decreases bound
  {
    if bound == 0 then 0
    else if SeenAt(hits, from) then 1
    else 1 + PollReads(hits, from + 1, bound - 1)
  }

  /** A poll whose first sighting is at iteration k (counting from 0) makes
      k + 1 reads and succeeds. */
  lemma {:induction false} PollStopsAtFirstHit(hits: seq<bool>, from: nat, bound: nat, k: nat)
    requires k < bound
    requires SeenAt(hits, from + k)
    requires forall j :: from <= j < from + k ==> !SeenAt(hits, j)
    ensures PollReads(hits, from, bound) == k + 1
    ensures PollSucceeds(hits, from, bound)
    decreases bound
  {
    if k > 0 {
      assert !SeenAt(hits, from);
      PollStopsAtFirstHit(hits, from + 1, bound - 1, k - 1);
    }
  }

  /** A poll that never sees the bit makes all `bound` reads and fails. */
  lemma {:induction false} PollExhausts(hits: seq<bool>, from: nat, bound: nat)
    requires forall j :: from <= j < from + bound ==> !SeenAt(hits, j)
    ensures PollReads(hits, from, bound) == bound
    ensures !PollSucceeds(hits, from, bound)
    decreases bound
  {
    if bound > 0 {
      assert !SeenAt(hits, from);
      PollExhausts(hits, from + 1, bound - 1);
    }
  }

  /** `n` accesses of the same kind, as one poll records them. */
  function Repeat(a: Access, n: nat): seq<Access> {
    seq(n, _ => a)
  }

  /** The accesses of one off sequence whose polls made `b` and `p` reads. */
  function OffSequence(b: nat, p: nat): seq<Access> {
    [IdleRequested] + Repeat(BusIdleSampled, b)
      + [PowerDownEnabled, Barrier] + Repeat(PowerStatusSampled, p)
  }

  /** The power-down write comes after every bus-idle read, and the barrier
      sits between it and every power-status read. */
  lemma OffSequenceOrder(b: nat, p: nat)
    ensures var s := OffSequence(b, p);
      |s| == b + p + 3 &&
      s[0] == IdleRequested && s[b + 1] == PowerDownEnabled && s[b + 2] == Barrier &&
      (forall i :: 0 <= i < |s| ==> (s[i] == BusIdleSampled <==> 1 <= i <= b)) &&
      (forall i :: 0 <= i < |s| ==> (s[i] == PowerStatusSampled <==> b + 3 <= i))
  {
  }

  /** The PMU as the off sequence sees it: the GMAC bits of the two control
      registers it sets, the observations its status reads will return, how
      many of each it has made, and the accesses so far. */
  class Pmu {
    var idleReqGmac: bool
    var pwrdnEnGmac: bool
    const busIdleObs: seq<BusIdleSample>
    const pwrStatObs: seq<bool>
    var busReads: nat
    var pwrReads: nat
    var accesses: seq<Access>

    constructor (busIdleObs: seq<BusIdleSample>, pwrStatObs: seq<bool>, idleReq: bool, pwrdnEn: bool)
      ensures this.busIdleObs == busIdleObs && this.pwrStatObs == pwrStatObs
      ensures idleReqGmac == idleReq && pwrdnEnGmac == pwrdnEn
      ensures busReads == 0 && pwrReads == 0 && accesses == []
    {
      this.busIdleObs, this.pwrStatObs := busIdleObs, pwrStatObs;
      idleReqGmac, pwrdnEnGmac := idleReq, pwrdnEn;
      busReads, pwrReads, accesses := 0, 0, [];
    }

    /** `pmu_bus_idle_req.modify(.. idle_req_gmac ..)`: set the GMAC bit. */
    method RequestBusIdle()
      modifies this`idleReqGmac, this`accesses
      ensures idleReqGmac && accesses == old(accesses) + [IdleRequested]
    {
      idleReqGmac := true;
      accesses := accesses + [IdleRequested];
    }

    /** One read each of the GMAC idle status and idle acknowledge bits. */
    method SampleBusIdle() returns (idle: bool, ack: bool)
      modifies this`busReads, this`accesses
      ensures idle == (old(busReads) < |busIdleObs| && busIdleObs[old(busReads)].idle)
      ensures ack == (old(busReads) < |busIdleObs| && busIdleObs[old(busReads)].ack)
      ensures busReads == old(busReads) + 1
      ensures accesses == old(accesses) + [BusIdleSampled]
    {
      if busReads < |busIdleObs| {
        idle, ack := busIdleObs[busReads].idle, busIdleObs[busReads].ack;
      } else {
        idle, ack := false, false;
      }
      busReads := busReads + 1;
      accesses := accesses + [BusIdleSampled];
    }

    /** `pmu_pwrdn_con.modify(.. pd_gmac_pwrdwn_en ..)`: set the GMAC bit. */
    method EnablePowerDown()
      modifies this`pwrdnEnGmac, this`accesses
      ensures pwrdnEnGmac && accesses == old(accesses) + [PowerDownEnabled]
    {
      pwrdnEnGmac := true;
      accesses := accesses + [PowerDownEnabled];
    }

    /** `dsb sy`: recorded as an ordering point, nothing more. */
    method DataSyncBarrier()
      modifies this`accesses
      ensures accesses == old(accesses) + [Barrier]
    {
      accesses := accesses + [Barrier];
    }

    /** One read of the GMAC bit of PMU_PWRDN_ST: set means powered off. */
    method SamplePowerStatus() returns (off: bool)
      modifies this`pwrReads, this`accesses
      ensures off == SeenAt(pwrStatObs, old(pwrReads))
      ensures pwrReads == old(pwrReads) + 1
      ensures accesses == old(accesses) + [PowerStatusSampled]
    {
      off := pwrReads < |pwrStatObs| && pwrStatObs[pwrReads];
      pwrReads := pwrReads + 1;
      accesses := accesses + [PowerStatusSampled];
    }
  }

  /** The first loop (src/main.rs:518-529): up to MAX_POLLS reads of the
      idle status and acknowledge bits, stopping at the first read that sees
      either set; the timeout flag ends false exactly when one did. */
  method AwaitBusIdle(pmu: Pmu) returns (busTimeout: bool)
    modifies pmu`busReads, pmu`accesses
    ensures busTimeout == !PollSucceeds(BusHits(pmu.busIdleObs), old(pmu.busReads), MAX_POLLS)
    ensures pmu.busReads == old(pmu.busReads) + PollReads(BusHits(pmu.busIdleObs), old(pmu.busReads), MAX_POLLS)
    ensures pmu.accesses == old(pmu.accesses)
      + Repeat(BusIdleSampled, PollReads(BusHits(pmu.busIdleObs), old(pmu.busReads), MAX_POLLS))
  {
    ghost var hits := BusHits(pmu.busIdleObs);
    ghost var b0, a0 := pmu.busReads, pmu.accesses;
    busTimeout := true;
    var i := 1;
    while i < MAX_WAIT_COUNT
      invariant 1 <= i <= MAX_WAIT_COUNT
      invariant pmu.busReads == b0 + (i - 1)
      invariant forall j :: b0 <= j < b0 + (i - 1) ==> !SeenAt(hits, j)
      invariant pmu.accesses == a0 + Repeat(BusIdleSampled, i - 1)
    {
      var idle, ack := pmu.SampleBusIdle();
      assert Repeat(BusIdleSampled, i - 1) + [BusIdleSampled] == Repeat(BusIdleSampled, i);
      if ack || idle {
        busTimeout := false;
        PollStopsAtFirstHit(hits, b0, MAX_POLLS, i - 1);
        break;
      }
      i := i + 1;
    }
    if busTimeout {
      PollExhausts(hits, b0, MAX_POLLS);
    }
  }

  /** The second loop (src/main.rs:544-551): up to MAX_POLLS reads of the
      power status bit, stopping at the first that sees it set; the timeout
      flag ends false exactly when one did. */
  method AwaitPowerOff(pmu: Pmu) returns (pdTimeout: bool)
    modifies pmu`pwrReads, pmu`accesses
    ensures pdTimeout == !PollSucceeds(pmu.pwrStatObs, old(pmu.pwrReads), MAX_POLLS)
    ensures pmu.pwrReads == old(pmu.pwrReads) + PollReads(pmu.pwrStatObs, old(pmu.pwrReads), MAX_POLLS)
    ensures pmu.accesses == old(pmu.accesses)
      + Repeat(PowerStatusSampled, PollReads(pmu.pwrStatObs, old(pmu.pwrReads), MAX_POLLS))
  {
    ghost var p0, a0 := pmu.pwrReads, pmu.accesses;
    pdTimeout := true;
    var i := 1;
    while i < MAX_WAIT_COUNT
      invariant 1 <= i <= MAX_WAIT_COUNT
      invariant pmu.pwrReads == p0 + (i - 1)
      invariant forall j :: p0 <= j < p0 + (i - 1) ==> !SeenAt(pmu.pwrStatObs, j)
      invariant pmu.accesses == a0 + Repeat(PowerStatusSampled, i - 1)
    {
      var poweredOff := pmu.SamplePowerStatus();
      assert Repeat(PowerStatusSampled, i - 1) + [PowerStatusSampled] == Repeat(PowerStatusSampled, i);
      if poweredOff {
        pdTimeout := false;
        PollStopsAtFirstHit(pmu.pwrStatObs, p0, MAX_POLLS, i - 1);
        break;
      }
      i := i + 1;
    }
    if pdTimeout {
      PollExhausts(pmu.pwrStatObs, p0, MAX_POLLS);
    }
  }

  /** The GMAC off sequence (src/main.rs:516-551): request bus idle, await
      it, enable power-down whether or not the bus phase timed out, issue the
      barrier, await the power status. */
  method GmacPowerOff(pmu: Pmu) returns (busTimeout: bool, pdTimeout: bool)
    modifies pmu
    ensures pmu.idleReqGmac && pmu.pwrdnEnGmac
    ensures busTimeout == !PollSucceeds(BusHits(pmu.busIdleObs), old(pmu.busReads), MAX_POLLS)
    ensures pmu.busReads == old(pmu.busReads) + PollReads(BusHits(pmu.busIdleObs), old(pmu.busReads), MAX_POLLS)
    ensures pdTimeout == !PollSucceeds(pmu.pwrStatObs, old(pmu.pwrReads), MAX_POLLS)
    ensures pmu.pwrReads == old(pmu.pwrReads) + PollReads(pmu.pwrStatObs, old(pmu.pwrReads), MAX_POLLS)
    ensures pmu.accesses == old(pmu.accesses) + OffSequence(
      PollReads(BusHits(pmu.busIdleObs), old(pmu.busReads), MAX_POLLS),
      PollReads(pmu.pwrStatObs, old(pmu.pwrReads), MAX_POLLS))
  {
    ghost var a0 := pmu.accesses;
    pmu.RequestBusIdle();
    busTimeout := AwaitBusIdle(pmu);
    pmu.EnablePowerDown();
    pmu.DataSyncBarrier();
    pdTimeout := AwaitPowerOff(pmu);
    ghost var b := PollReads(BusHits(pmu.busIdleObs), old(pmu.busReads), MAX_POLLS);
    ghost var p := PollReads(pmu.pwrStatObs, old(pmu.pwrReads), MAX_POLLS);
    assert pmu.accesses == a0 + ([IdleRequested] + Repeat(BusIdleSampled, b)
      + [PowerDownEnabled, Barrier] + Repeat(PowerStatusSampled, p));
  }
}
