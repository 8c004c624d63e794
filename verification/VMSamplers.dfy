/** The per-VM samplers of internal/libvirt/metric/vm/vm_metrics.go, on exact reals. */
module VMSamplers {
  import opened Wrappers
  import opened KeyedRuns

  datatype LiteSample = LiteSample(netRX: u64, netTX: u64)

  datatype RuntimeSample = RuntimeSample(
    diskReadBytes: u64, diskWriteBytes: u64, diskReadReqs: u64, diskWriteReqs: u64,
    netRXBytes: u64, netTXBytes: u64, netRXPkts: u64, netTXPkts: u64)

  datatype LiteRates = LiteRates(rx: real, tx: real)

  datatype RuntimeRates = RuntimeRates(
    diskRead: real, diskWrite: real, diskReadIOPS: real, diskWriteIOPS: real,
    netRX: real, netTX: real, netRXPkts: real, netTXPkts: real)

  const NANOS := 1_000_000_000.0

  function DeltaPerSec(current: u64, previous: u64, dt: real): real {
    if current <= previous || dt <= 0.0 then 0.0 else (current - previous) as real / dt
  }

  /** Nanoseconds of CPU time over some seconds, in percent of all cores. */
  function Percent(nanoseconds: real, dt: real, cores: real): real
    requires cores > 0.0 && dt > 0.0
  {
    (nanoseconds / NANOS / dt) * (100.0 / cores)
  }

  /** CPU use of a step in percent of all cores, before it is capped. */
  function RawUsage(p: Reading<u64>, c: Reading<u64>, cores: real): real
    requires cores > 0.0 && c.at > p.at
  {
    Percent((c.value - p.value) as real, c.at - p.at, cores)
  }

  /** CPU use between two readings: none without growth or time, and at most 100. */
  function Usage(p: Reading<u64>, c: Reading<u64>, cores: real): real
    requires cores > 0.0
  {
    if c.value <= p.value || c.at <= p.at then 0.0
    else if RawUsage(p, c, cores) > 100.0 then 100.0
    else RawUsage(p, c, cores)
  }

  /**
   What a usage figure says, in nanoseconds: of cores * dt seconds of CPU time, 10^9 nanoseconds each,
   it is the percentage used; nothing without growth or time, and 100 for more than there was.
   */
  predicate Measures(usage: real, p: Reading<u64>, c: Reading<u64>, cores: real) {
    if c.value <= p.value || c.at <= p.at then usage == 0.0
    else IsPart(usage, (c.value - p.value) as real, cores * (c.at - p.at))
  }

  /** Nanoseconds in percent of some seconds, at most 100. */
  predicate IsPart(usage: real, nanoseconds: real, seconds: real) {
    if nanoseconds <= seconds * 1_000_000_000.0 then usage * (seconds * 10_000_000.0) == nanoseconds
    else usage == 100.0
  }

  lemma UsageMeasures(p: Reading<u64>, c: Reading<u64>, cores: real)
    requires cores > 0.0
    ensures Measures(Usage(p, c, cores), p, c, cores)
  {
    if c.value > p.value && c.at > p.at {
      var n, dt := (c.value - p.value) as real, c.at - p.at;
      var usage := if Percent(n, dt, cores) > 100.0 then 100.0 else Percent(n, dt, cores);
      RawScale(n, dt, cores);
      assert Usage(p, c, cores) == usage;
      assert IsPart(usage, n, cores * dt);
    }
  }

  lemma RawScale(n: real, dt: real, cores: real)
    requires n > 0.0 && dt > 0.0 && cores > 0.0
    ensures var raw := Percent(n, dt, cores);
            IsPart(if raw > 100.0 then 100.0 else raw, n, cores * dt)
  {
    var x, y := n / NANOS / dt, 100.0 / cores;
    DivideBack(n / NANOS, dt);
    DivideBack(100.0, cores);
    Product(x, y, dt, cores);
    Positive(cores, dt);
    Above(x * y, (cores * dt) * 10_000_000.0, n);
  }

  lemma Product(x: real, y: real, dt: real, cores: real)
    ensures (x * y) * (cores * dt) == (x * dt) * (y * cores)
  {
    Reorder(x, y, cores * dt);
    assert x * (cores * dt) == (x * dt) * cores;
    assert ((x * dt) * cores) * y == (x * dt) * (y * cores);
  }

  lemma Above(raw: real, s: real, n: real)
    requires s > 0.0 && raw * s == n
    ensures raw > 100.0 <==> n > 100.0 * s
  {
    assert (raw - 100.0) * s == n - 100.0 * s;
  }

  /** A share of what all cores can do in some time is reported as that percentage. */
  lemma ShareReported(usage: real, p: Reading<u64>, c: Reading<u64>, cores: real, share: real)
    requires cores > 0.0 && c.value > p.value && c.at > p.at && Measures(usage, p, c, cores)
    requires (c.value - p.value) as real == share * (cores * (c.at - p.at) * 1_000_000_000.0)
    ensures usage == if share <= 1.0 then 100.0 * share else 100.0
  {
    Positive(cores, c.at - p.at);
    SharePart(usage, (c.value - p.value) as real, cores * (c.at - p.at), share);
  }

  lemma SharePart(usage: real, n: real, seconds: real, share: real)
    requires seconds > 0.0 && n == share * (seconds * 1_000_000_000.0) && IsPart(usage, n, seconds)
    ensures usage == if share <= 1.0 then 100.0 * share else 100.0
  {
    var whole := seconds * 1_000_000_000.0;
    ShareBelow(share, whole);
    if share <= 1.0 {
      assert usage * (seconds * 10_000_000.0) == usage / 100.0 * whole;
      SameQuotient(usage / 100.0, share, whole);
    }
  }

  lemma ShareBelow(share: real, whole: real)
    requires whole > 0.0
    ensures share * whole <= whole <==> share <= 1.0
  {
    assert share * whole - whole == (share - 1.0) * whole;
  }

  lemma Positive(a: real, b: real)
    requires a > 0.0 && b > 0.0
    ensures a * b > 0.0
  {
  }

  lemma SameQuotient(x: real, y: real, d: real)
    requires d > 0.0 && x * d == y * d
    ensures x == y
  {
    assert (x - y) * d == 0.0;
  }

  /** The rate of one counter between two samples. */
  function Rate<T>(p: Reading<T>, c: Reading<T>, counter: T -> u64): real {
    DeltaPerSec(counter(c.value), counter(p.value), c.at - p.at)
  }

  /** The time since the last reading of a VM, if there is one. */
  function Since(h: seq<Reading<u64>>, vmID: string, at: real): real {
    if vmID in Baselines(h) then at - Baselines(h)[vmID].at else 0.0
  }

  /** A rate by which a counter went from one value to another in some time; none if it fell or no time passed. */
  predicate IsRate(rate: real, before: u64, now: u64, dt: real) {
    if now > before && dt > 0.0 then rate * dt == (now - before) as real else rate == 0.0
  }

  lemma DeltaPerSecIsRate(now: u64, before: u64, dt: real)
    ensures IsRate(DeltaPerSec(now, before, dt), before, now, dt)
  {
    if now > before && dt > 0.0 {
      DivideBack((now - before) as real, dt);
    }
  }

  /** Every rate is that of its own counter. */
  predicate LiteMeasured(rates: LiteRates, p: Reading<LiteSample>, c: Reading<LiteSample>) {
    var before, now, dt := p.value, c.value, c.at - p.at;
    IsRate(rates.rx, before.netRX, now.netRX, dt) && IsRate(rates.tx, before.netTX, now.netTX, dt)
  }

  predicate RuntimeMeasured(rates: RuntimeRates, p: Reading<RuntimeSample>, c: Reading<RuntimeSample>) {
    var before, now, dt := p.value, c.value, c.at - p.at;
    && IsRate(rates.diskRead, before.diskReadBytes, now.diskReadBytes, dt)
    && IsRate(rates.diskWrite, before.diskWriteBytes, now.diskWriteBytes, dt)
    && IsRate(rates.diskReadIOPS, before.diskReadReqs, now.diskReadReqs, dt)
    && IsRate(rates.diskWriteIOPS, before.diskWriteReqs, now.diskWriteReqs, dt)
    && IsRate(rates.netRX, before.netRXBytes, now.netRXBytes, dt)
    && IsRate(rates.netTX, before.netTXBytes, now.netTXBytes, dt)
    && IsRate(rates.netRXPkts, before.netRXPkts, now.netRXPkts, dt)
    && IsRate(rates.netTXPkts, before.netTXPkts, now.netTXPkts, dt)
  }

  class Reader {
    const cores: real
    var prev: map<string, Reading<u64>>
    var prevLite: map<string, Reading<LiteSample>>
    var prevRuntime: map<string, Reading<RuntimeSample>>
    ghost var cpuHistory: seq<Reading<u64>>
    ghost var liteHistory: seq<Reading<LiteSample>>
    ghost var runtimeHistory: seq<Reading<RuntimeSample>>

    ghost predicate Valid()
      reads this
    {
      && cores > 0.0
      && prev == Baselines(cpuHistory)
      && prevLite == Baselines(liteHistory)
      && prevRuntime == Baselines(runtimeHistory)
    }

    constructor (cores: real)
      requires cores > 0.0
      ensures Valid() && this.cores == cores && cpuHistory == [] && liteHistory == [] && runtimeHistory == []
    {
      this.cores := cores;
      prev, prevLite, prevRuntime := map[], map[], map[];
      cpuHistory, liteHistory, runtimeHistory := [], [], [];
    }

    /** The usage since the last reading of the VM, whichever cycle took it; the new one becomes the baseline. */
    method ComputeCPU(vmID: string, cpuNs: u64, at: real) returns (usage: real)
      requires Valid()
      modifies `prev, `cpuHistory
      ensures Valid() && cpuHistory == old(cpuHistory) + [Reading(vmID, at, cpuNs)]
      ensures usage == if vmID in old(prev) then Usage(old(prev)[vmID], Reading(vmID, at, cpuNs), cores) else 0.0
      ensures 0.0 <= usage <= 100.0
      ensures if vmID in old(prev) then Measures(usage, old(prev)[vmID], Reading(vmID, at, cpuNs), cores)
              else usage == 0.0
      ensures Observed(cpuHistory, vmID, UsageTime(cores))
              == Observed(old(cpuHistory), vmID, UsageTime(cores)) + usage * Since(old(cpuHistory), vmID, at)
      ensures forall other :: other != vmID ==>
                Observed(cpuHistory, other, UsageTime(cores)) == Observed(old(cpuHistory), other, UsageTime(cores))
    {
      ghost var history := cpuHistory;
      var r := Reading(vmID, at, cpuNs);
      var known := vmID in prev;
      var before := if known then prev[vmID] else r;
      prev := prev[vmID := r];
      cpuHistory := cpuHistory + [r];
      assert cpuHistory[..|cpuHistory| - 1] == history;
      usage := 0.0;
      if known {
        usage := UsageSince(before, r);
      }
      ObservedNext(history, r, UsageTime(cores), usage * Since(history, vmID, at));
    }

    /** The arithmetic of a step. */
    method UsageSince(before: Reading<u64>, r: Reading<u64>) returns (usage: real)
      requires cores > 0.0
      ensures usage == Usage(before, r, cores) && 0.0 <= usage <= 100.0
      ensures UsageTime(cores)(before, r) == usage * (r.at - before.at)
      ensures Measures(usage, before, r, cores)
    {
      UsageMeasures(before, r, cores);
      if r.value <= before.value {
        return 0.0;
      }
      var dt := r.at - before.at;
      if dt <= 0.0 {
        return 0.0;
      }
      usage := ((r.value - before.value) as real / NANOS / dt) * (100.0 / cores);
      RawUsageEnergy(before, r, cores);
      if usage < 0.0 {
        return 0.0;
      }
      if usage > 100.0 {
        return 100.0;
      }
    }

    method ComputeLiteNetRates(vmID: string, sample: LiteSample, at: real) returns (rates: LiteRates)
      requires Valid()
      modifies `prevLite, `liteHistory
      ensures Valid() && liteHistory == old(liteHistory) + [Reading(vmID, at, sample)]
      ensures if vmID in old(prevLite) then LiteMeasured(rates, old(prevLite)[vmID], Reading(vmID, at, sample))
              else rates == LiteRates(0.0, 0.0)
    {
      ghost var history := liteHistory;
      var r := Reading(vmID, at, sample);
      var known := vmID in prevLite;
      var before := if known then prevLite[vmID] else r;
      prevLite := prevLite[vmID := r];
      liteHistory := liteHistory + [r];
      assert liteHistory[..|liteHistory| - 1] == history;
      if !known {
        return LiteRates(0.0, 0.0);
      }
      var dt := at - before.at;
      if dt <= 0.0 {
        return LiteRates(0.0, 0.0);
      }
      DeltaPerSecIsRate(sample.netRX, before.value.netRX, dt);
      DeltaPerSecIsRate(sample.netTX, before.value.netTX, dt);
      rates := LiteRates(DeltaPerSec(sample.netRX, before.value.netRX, dt),
                         DeltaPerSec(sample.netTX, before.value.netTX, dt));
    }

    method ComputeRuntimeRates(vmID: string, sample: RuntimeSample, at: real) returns (rates: RuntimeRates)
      requires Valid()
      modifies `prevRuntime, `runtimeHistory
      ensures Valid() && runtimeHistory == old(runtimeHistory) + [Reading(vmID, at, sample)]
      ensures if vmID in old(prevRuntime) then RuntimeMeasured(rates, old(prevRuntime)[vmID], Reading(vmID, at, sample))
              else rates == RuntimeRates(0.0, 0.0, 0.0, 0.0, 0.0, 0.0, 0.0, 0.0)
    {
      ghost var history := runtimeHistory;
      var r := Reading(vmID, at, sample);
      var known := vmID in prevRuntime;
      var before := if known then prevRuntime[vmID] else r;
      prevRuntime := prevRuntime[vmID := r];
      runtimeHistory := runtimeHistory + [r];
      assert runtimeHistory[..|runtimeHistory| - 1] == history;
      if !known {
        return RuntimeRates(0.0, 0.0, 0.0, 0.0, 0.0, 0.0, 0.0, 0.0);
      }
      var dt := at - before.at;
      if dt <= 0.0 {
        return RuntimeRates(0.0, 0.0, 0.0, 0.0, 0.0, 0.0, 0.0, 0.0);
      }
      var p := before.value;
      DeltaPerSecIsRate(sample.diskReadBytes, p.diskReadBytes, dt);
      DeltaPerSecIsRate(sample.diskWriteBytes, p.diskWriteBytes, dt);
      DeltaPerSecIsRate(sample.diskReadReqs, p.diskReadReqs, dt);
      DeltaPerSecIsRate(sample.diskWriteReqs, p.diskWriteReqs, dt);
      DeltaPerSecIsRate(sample.netRXBytes, p.netRXBytes, dt);
      DeltaPerSecIsRate(sample.netTXBytes, p.netTXBytes, dt);
      DeltaPerSecIsRate(sample.netRXPkts, p.netRXPkts, dt);
      DeltaPerSecIsRate(sample.netTXPkts, p.netTXPkts, dt);
      rates := RuntimeRates(
        DeltaPerSec(sample.diskReadBytes, p.diskReadBytes, dt),
        DeltaPerSec(sample.diskWriteBytes, p.diskWriteBytes, dt),
        DeltaPerSec(sample.diskReadReqs, p.diskReadReqs, dt),
        DeltaPerSec(sample.diskWriteReqs, p.diskWriteReqs, dt),
        DeltaPerSec(sample.netRXBytes, p.netRXBytes, dt),
        DeltaPerSec(sample.netTXBytes, p.netTXBytes, dt),
        DeltaPerSec(sample.netRXPkts, p.netRXPkts, dt),
        DeltaPerSec(sample.netTXPkts, p.netTXPkts, dt));
    }

    /** The sampling part of the lite collection cycle for one VM. */
    method SampleLite(vmID: string, cpuNs: u64, sample: LiteSample, at: real) returns (usage: real, rates: LiteRates)
      requires Valid()
      modifies `prev, `cpuHistory, `prevLite, `liteHistory
      ensures Valid() && cpuHistory == old(cpuHistory) + [Reading(vmID, at, cpuNs)]
      ensures liteHistory == old(liteHistory) + [Reading(vmID, at, sample)]
      ensures if vmID in old(prevLite) then LiteMeasured(rates, old(prevLite)[vmID], Reading(vmID, at, sample))
              else rates == LiteRates(0.0, 0.0)
      ensures usage == if vmID in old(prev) then Usage(old(prev)[vmID], Reading(vmID, at, cpuNs), cores) else 0.0
    {
      usage := ComputeCPU(vmID, cpuNs, at);
      rates := ComputeLiteNetRates(vmID, sample, at);
    }

    /** The sampling part of the runtime collection cycle for one VM. */
    method SampleRuntime(vmID: string, cpuNs: u64, sample: RuntimeSample, at: real)
      returns (usage: real, rates: RuntimeRates)
      requires Valid()
      modifies `prev, `cpuHistory, `prevRuntime, `runtimeHistory
      ensures Valid() && cpuHistory == old(cpuHistory) + [Reading(vmID, at, cpuNs)]
      ensures runtimeHistory == old(runtimeHistory) + [Reading(vmID, at, sample)]
      ensures if vmID in old(prevRuntime) then RuntimeMeasured(rates, old(prevRuntime)[vmID], Reading(vmID, at, sample))
              else rates == RuntimeRates(0.0, 0.0, 0.0, 0.0, 0.0, 0.0, 0.0, 0.0)
      ensures usage == if vmID in old(prev) then Usage(old(prev)[vmID], Reading(vmID, at, cpuNs), cores) else 0.0
    {
      usage := ComputeCPU(vmID, cpuNs, at);
      rates := ComputeRuntimeRates(vmID, sample, at);
    }
  }

  // ---------------------------------------------------------------------------
  // What the samples add up to over a whole history
  // ---------------------------------------------------------------------------

  /** Percent-seconds reported for a step. */
  function UsageTime(cores: real): (Reading<u64>, Reading<u64>) -> real
    requires cores > 0.0
  {
    (p: Reading<u64>, c: Reading<u64>) => Usage(p, c, cores) * (c.at - p.at)
  }

  /** Percent-seconds of CPU time consumed up to a reading. */
  function Consumed(cores: real): Reading<u64> -> real
    requires cores > 0.0
  {
    (r: Reading<u64>) => r.value as real / NANOS * (100.0 / cores)
  }

  function ConsumedBetween(cores: real): (Reading<u64>, Reading<u64>) -> real
    requires cores > 0.0
  {
    (p: Reading<u64>, c: Reading<u64>) => Consumed(cores)(c) - Consumed(cores)(p)
  }

  /** A step reports all it rose by: nothing, or some over a positive time without hitting the cap. */
  function Uncapped(cores: real): (Reading<u64>, Reading<u64>) -> bool
    requires cores > 0.0
  {
    (p: Reading<u64>, c: Reading<u64>) => c.value <= p.value || (c.at > p.at && RawUsage(p, c, cores) <= 100.0)
  }

  predicate InCounterOrder(p: Reading<u64>, c: Reading<u64>) {
    p.value <= c.value
  }

  /** Percent-seconds by which a reading shows more than the one before it, or less. */
  function Rise(cores: real): (Reading<u64>, Reading<u64>) -> real
    requires cores > 0.0
  {
    (p: Reading<u64>, c: Reading<u64>) => if c.value > p.value then ConsumedBetween(cores)(p, c) else 0.0
  }

  function Fall(cores: real): (Reading<u64>, Reading<u64>) -> real
    requires cores > 0.0
  {
    (p: Reading<u64>, c: Reading<u64>) => if c.value < p.value then ConsumedBetween(cores)(c, p) else 0.0
  }

  lemma RawUsageEnergy(p: Reading<u64>, c: Reading<u64>, cores: real)
    requires cores > 0.0 && c.at > p.at && c.value >= p.value
    ensures RawUsage(p, c, cores) >= 0.0
    ensures RawUsage(p, c, cores) * (c.at - p.at) == (c.value - p.value) as real / NANOS * (100.0 / cores)
  {
    var d, dt, k := (c.value - p.value) as real / NANOS, c.at - p.at, 100.0 / cores;
    assert d >= 0.0 && k > 0.0;
    DivideBack(d, dt);
    assert RawUsage(p, c, cores) == (d / dt) * k;
    Reorder(d / dt, k, dt);
    NonNegative(d / dt, k);
  }

  lemma DivideBack(d: real, dt: real)
    requires d >= 0.0 && dt > 0.0
    ensures d / dt * dt == d && d / dt >= 0.0
  {
  }

  lemma Reorder(a: real, k: real, b: real)
    ensures (a * k) * b == (a * b) * k
  {
  }

  lemma NonNegative(a: real, b: real)
    requires a >= 0.0 && b >= 0.0
    ensures a * b >= 0.0
  {
  }

  /** Capping a usage loses some of it, and leaving it alone loses nothing. */
  lemma CappedStep(raw: real, usage: real, dt: real)
    requires dt > 0.0 && usage == if raw > 100.0 then 100.0 else raw
    ensures usage * dt <= raw * dt
    ensures usage * dt == raw * dt <==> raw <= 100.0
  {
    if raw > 100.0 {
      var extra := raw - 100.0;
      assert raw * dt == usage * dt + extra * dt;
      assert extra * dt > 0.0;
    }
  }

  lemma ConsumedDifference(p: Reading<u64>, c: Reading<u64>, cores: real)
    requires cores > 0.0
    ensures ConsumedBetween(cores)(p, c) == (c.value - p.value) as real / NANOS * (100.0 / cores)
    ensures c.value > p.value ==> ConsumedBetween(cores)(p, c) > 0.0
    ensures c.value == p.value ==> ConsumedBetween(cores)(p, c) == 0.0
  {
    var x, y, k := c.value as real / NANOS, p.value as real / NANOS, 100.0 / cores;
    var d := (c.value - p.value) as real / NANOS;
    assert d == x - y;
    Distribute(x, y, d, k);
    assert Consumed(cores)(c) == x * k && Consumed(cores)(p) == y * k;
    assert k > 0.0;
    if c.value > p.value {
      assert d > 0.0;
      assert d * k > 0.0;
    }
  }

  lemma Distribute(x: real, y: real, d: real, k: real)
    requires d == x - y
    ensures d * k == x * k - y * k
  {
  }

  lemma UsagePair(p: Reading<u64>, c: Reading<u64>, cores: real)
    requires cores > 0.0
    ensures AtMost(p, c, UsageTime(cores), Rise(cores), Uncapped(cores))
  {
    ConsumedDifference(p, c, cores);
    if c.value > p.value && c.at > p.at {
      RawUsageEnergy(p, c, cores);
      CappedStep(RawUsage(p, c, cores), Usage(p, c, cores), c.at - p.at);
      assert UsageTime(cores)(p, c) == Usage(p, c, cores) * (c.at - p.at);
    } else {
      assert UsageTime(cores)(p, c) == 0.0 * (c.at - p.at) == 0.0;
    }
  }

  lemma UsageSteps(os: seq<Reading<u64>>, cores: real)
    requires cores > 0.0
    ensures forall i :: 0 < i < |os| ==> AtMost(os[i - 1], os[i], UsageTime(cores), Rise(cores), Uncapped(cores))
  {
    forall i | 0 < i < |os|
      ensures AtMost(os[i - 1], os[i], UsageTime(cores), Rise(cores), Uncapped(cores))
    {
      UsagePair(os[i - 1], os[i], cores);
    }
  }

  lemma RisesAndFalls(os: seq<Reading<u64>>, cores: real)
    requires cores > 0.0 && os != []
    ensures SumSteps(os, Rise(cores))
            == Consumed(cores)(os[|os| - 1]) - Consumed(cores)(os[0]) + SumSteps(os, Fall(cores))
  {
    forall i | 0 < i < |os|
      ensures Rise(cores)(os[i - 1], os[i]) == ConsumedBetween(cores)(os[i - 1], os[i]) + Fall(cores)(os[i - 1], os[i])
    {
      ConsumedDifference(os[i - 1], os[i], cores);
    }
    SumStepsAdd(os, Rise(cores), ConsumedBetween(cores), Fall(cores));
    Telescope(os, ConsumedBetween(cores), Consumed(cores));
  }

  /**
   In whatever order the readings of the two cycles arrive, the usage a VM is charged, weighted by
   time, exceeds the CPU time consumed between its first and last reading, as a percentage of all
   cores, by at most what readings fell below the one before. It is all of that sum exactly when no
   rising step was capped or took no time.
   */
  lemma UsageAnyOrder(h: seq<Reading<u64>>, vmID: string, cores: real)
    requires cores > 0.0 && ForKey(h, vmID) != []
    ensures var os := ForKey(h, vmID);
            var charged := Observed(h, vmID, UsageTime(cores));
            var consumed := Consumed(cores)(os[|os| - 1]) - Consumed(cores)(os[0]);
            && charged <= consumed + SumSteps(os, Fall(cores))
            && (charged == consumed + SumSteps(os, Fall(cores)) <==> EachStep(os, Uncapped(cores)))
  {
    var os := ForKey(h, vmID);
    ObservedIsPerKey(h, vmID, UsageTime(cores));
    UsageSteps(os, cores);
    SumStepsCompare(os, UsageTime(cores), Rise(cores), Uncapped(cores));
    RisesAndFalls(os, cores);
  }

  lemma {:induction false} NoFalls(os: seq<Reading<u64>>, cores: real)
    requires cores > 0.0 && EachStep(os, InCounterOrder)
    ensures SumSteps(os, Fall(cores)) == 0.0
  {
    if |os| > 1 {
      EachStepPrefix(os, InCounterOrder);
      NoFalls(os[..|os| - 1], cores);
    }
  }

  /**
   When they arrive in counter order, however the two cycles interleave, the usage charged is at
   most the CPU time consumed, and all of it exactly when no step was capped or took growth
   without time.
   */
  lemma UsageAtMostConsumed(h: seq<Reading<u64>>, vmID: string, cores: real)
    requires cores > 0.0 && ForKey(h, vmID) != [] && EachStep(ForKey(h, vmID), InCounterOrder)
    ensures var os := ForKey(h, vmID);
            var charged := Observed(h, vmID, UsageTime(cores));
            var consumed := Consumed(cores)(os[|os| - 1]) - Consumed(cores)(os[0]);
            && charged <= consumed
            && (charged == consumed <==> EachStep(os, Uncapped(cores)))
  {
    UsageAnyOrder(h, vmID, cores);
    NoFalls(ForKey(h, vmID), cores);
  }

  /** Units reported for a step by the rate of one counter. */
  function RateTime<T>(counter: T -> u64): (Reading<T>, Reading<T>) -> real {
    (p: Reading<T>, c: Reading<T>) => Rate(p, c, counter) * (c.at - p.at)
  }

  function Counted<T>(counter: T -> u64): Reading<T> -> real {
    (r: Reading<T>) => counter(r.value) as real
  }

  function CountedBetween<T>(counter: T -> u64): (Reading<T>, Reading<T>) -> real {
    (p: Reading<T>, c: Reading<T>) => counter(c.value) as real - counter(p.value) as real
  }

  function Timely<T>(counter: T -> u64): (Reading<T>, Reading<T>) -> bool {
    (p: Reading<T>, c: Reading<T>) => counter(c.value) == counter(p.value) || c.at > p.at
  }

  function Grows<T>(counter: T -> u64): (Reading<T>, Reading<T>) -> bool {
    (p: Reading<T>, c: Reading<T>) => counter(p.value) <= counter(c.value)
  }

  lemma RatePair<T>(p: Reading<T>, c: Reading<T>, counter: T -> u64)
    requires Grows(counter)(p, c)
    ensures AtMost(p, c, RateTime(counter), CountedBetween(counter), Timely(counter))
  {
    var d, dt := counter(c.value) - counter(p.value), c.at - p.at;
    if d > 0 && dt > 0.0 {
      DivideBack(d as real, dt);
      assert Rate(p, c, counter) == d as real / dt;
    } else {
      assert RateTime(counter)(p, c) == 0.0 * dt == 0.0;
    }
  }

  /**
   For every counter of a sample, rates weighted by time add up to at most last minus first,
   and to exactly that when the counter only grew while time passed.
   */
  lemma RatesTelescope<T(!new)>(h: seq<Reading<T>>, vmID: string, counter: T -> u64)
    requires ForKey(h, vmID) != [] && EachStep(ForKey(h, vmID), Grows(counter))
    ensures var os := ForKey(h, vmID);
            var growth := Counted(counter)(os[|os| - 1]) - Counted(counter)(os[0]);
            && Observed(h, vmID, RateTime(counter)) <= growth
            && (Observed(h, vmID, RateTime(counter)) == growth <==> EachStep(os, Timely(counter)))
  {
    var os := ForKey(h, vmID);
    ObservedIsPerKey(h, vmID, RateTime(counter));
    RateSteps(os, counter);
    SumStepsCompare(os, RateTime(counter), CountedBetween(counter), Timely(counter));
    CountsTelescope(os, counter);
  }

  lemma RateSteps<T(!new)>(os: seq<Reading<T>>, counter: T -> u64)
    requires EachStep(os, Grows(counter))
    ensures forall i :: 0 < i < |os| ==>
              AtMost(os[i - 1], os[i], RateTime(counter), CountedBetween(counter), Timely(counter))
  {
    forall i | 0 < i < |os|
      ensures AtMost(os[i - 1], os[i], RateTime(counter), CountedBetween(counter), Timely(counter))
    {
      assert Grows(counter)(os[i - 1], os[i]);
      RatePair(os[i - 1], os[i], counter);
    }
  }

  lemma CountsTelescope<T(!new)>(os: seq<Reading<T>>, counter: T -> u64)
    requires os != []
    ensures SumSteps(os, CountedBetween(counter)) == Counted(counter)(os[|os| - 1]) - Counted(counter)(os[0])
  {
    Telescope(os, CountedBetween(counter), Counted(counter));
  }
}
