/** Node CPU percentages from successive /proc/stat snapshots (internal/libvirt/metric/node/cpu_linux.go). */
module CPUSnapshot {
  import opened Wrappers
  import opened Text

  datatype Counters = Counters(
    user: u64, nice: u64, system: u64, idle: u64, iowait: u64, irq: u64, softirq: u64, steal: u64, total: u64)

  datatype Snapshot = Snapshot(
    at: real, aggregate: Counters, perCore: seq<Counters>, contextSwitches: u64, interrupts: u64)

  datatype Metrics = Metrics(
    total: real, user: real, system: real, idle: real, iowait: real, steal: real, irq: real, softirq: real,
    nice: real, perCore: seq<real>, contextSwitchesSec: real, interruptsSec: real)

  predicate AllNumbers(fields: seq<string>) {
    forall i :: 0 <= i < |fields| ==> ParseUint(fields[i]).Some?
  }

  function ParseAll(fields: seq<string>): (vals: seq<u64>)
    requires AllNumbers(fields)
    ensures |vals| == |fields| && forall i :: 0 <= i < |fields| ==> ParseUint(fields[i]) == Some(vals[i])
  {
    seq(|fields|, i requires 0 <= i < |fields| => ParseUint(fields[i]).value)
  }

  /** The first eight numbers of a line, and the wrapping total of them all. */
  function CountersOf(vals: seq<u64>): Counters
    requires |vals| >= 8
  {
    Counters(vals[0], vals[1], vals[2], vals[3], vals[4], vals[5], vals[6], vals[7], Sum(vals) % TWO_64)
  }

  method AddUp(vals: seq<u64>) returns (total: u64)
    ensures total == Sum(vals) % TWO_64
  {
    total := 0;
    for i := 0 to |vals|
      invariant total == Sum(vals[..i]) % TWO_64
    {
      assert vals[..i + 1][..i] == vals[..i];
      total := Add64(total, vals[i]);
    }
    assert vals[..|vals|] == vals;
  }

  /** The counters of a line: the first eight fields, and a total over all of them, extra ones included. */
  method ParseCPUCounters(fields: seq<string>) returns (r: Result<Counters>)
    ensures r.Ok? <==> |fields| >= 8 && AllNumbers(fields)
    ensures r.Ok? ==>
              && r.value == CountersOf(ParseAll(fields))
              && ParseUint(fields[0]) == Some(r.value.user) && ParseUint(fields[1]) == Some(r.value.nice)
              && ParseUint(fields[2]) == Some(r.value.system) && ParseUint(fields[3]) == Some(r.value.idle)
              && ParseUint(fields[4]) == Some(r.value.iowait) && ParseUint(fields[5]) == Some(r.value.irq)
              && ParseUint(fields[6]) == Some(r.value.softirq) && ParseUint(fields[7]) == Some(r.value.steal)
              && r.value.total == Sum(ParseAll(fields)) % TWO_64
  {
    if |fields| < 8 {
      return Err("unexpected cpu fields");
    }
    var vals: seq<u64> := [];
    for i := 0 to |fields|
      invariant |vals| == i
      invariant forall j :: 0 <= j < i ==> ParseUint(fields[j]) == Some(vals[j])
    {
      var value := ParseUint(fields[i]);
      if value == None {
        return Err("parse cpu stat");
      }
      vals := vals + [value.value];
    }
    var total := AddUp(vals);
    assert vals == ParseAll(fields);
    r := Ok(Counters(vals[0], vals[1], vals[2], vals[3], vals[4], vals[5], vals[6], vals[7], total));
  }

  function DeltaCounter(cur: u64, prev: u64): (r: u64)
    ensures if cur >= prev then prev + r == cur else r == 0
  {
    if cur < prev then 0 else cur - prev
  }

  function ClampPercent(value: real): (r: real)
    ensures 0.0 <= r <= 100.0 && (0.0 <= value <= 100.0 ==> r == value) && (value > 100.0 ==> r == 100.0)
  {
    if value < 0.0 then 0.0 else if value > 100.0 then 100.0 else value
  }

  function PercentDelta(cur: u64, prev: u64, totalDelta: u64): real {
    if totalDelta == 0 then 0.0
    else ClampPercent(DeltaCounter(cur, prev) as real / totalDelta as real * 100.0)
  }

  /** A counter's growth in percent of some total growth, at most 100, and nothing if it fell. */
  predicate IsPercent(share: real, before: u64, now: u64, total: u64) {
    if now <= before then share == 0.0
    else if now - before <= total then share * total as real == 100.0 * (now - before) as real
    else share == 100.0
  }

  lemma PercentDeltaIs(cur: u64, prev: u64, total: u64)
    requires total > 0
    ensures IsPercent(PercentDelta(cur, prev, total), prev, cur, total)
  {
    if cur > prev {
      Percent((cur - prev) as real, total as real);
    }
  }

  lemma Percent(growth: real, total: real)
    requires growth > 0.0 && total > 0.0
    ensures var share := growth / total * 100.0;
            share * total == 100.0 * growth && share > 0.0 && (share > 100.0 <==> growth > total)
  {
    var q := growth / total;
    assert q * total == growth;
    assert (q - 1.0) * total == growth - total;
  }

  /** The share of everything but idle time. */
  function BusySum(cur: Counters, prev: Counters, totalDelta: u64): real {
    PercentDelta(cur.user, prev.user, totalDelta) + PercentDelta(cur.system, prev.system, totalDelta)
    + PercentDelta(cur.iowait, prev.iowait, totalDelta) + PercentDelta(cur.steal, prev.steal, totalDelta)
    + PercentDelta(cur.irq, prev.irq, totalDelta) + PercentDelta(cur.softirq, prev.softirq, totalDelta)
    + PercentDelta(cur.nice, prev.nice, totalDelta)
  }

  function Busy(cur: Counters, prev: Counters): real {
    var totalDelta := DeltaCounter(cur.total, prev.total);
    if totalDelta == 0 then 0.0 else ClampPercent(BusySum(cur, prev, totalDelta))
  }

  function Idle(cur: Counters, prev: Counters): real {
    PercentDelta(cur.idle, prev.idle, DeltaCounter(cur.total, prev.total))
  }

  /** Every percentage is that of its own counter, and the total that of all but idle, at most 100. */
  ghost predicate Shares(out: Metrics, c: Counters, p: Counters, t: u64) {
    && IsPercent(out.user, p.user, c.user, t) && IsPercent(out.system, p.system, c.system, t)
    && IsPercent(out.idle, p.idle, c.idle, t) && IsPercent(out.iowait, p.iowait, c.iowait, t)
    && IsPercent(out.steal, p.steal, c.steal, t) && IsPercent(out.irq, p.irq, c.irq, t)
    && IsPercent(out.softirq, p.softirq, c.softirq, t) && IsPercent(out.nice, p.nice, c.nice, t)
    && var busy := out.user + out.system + out.iowait + out.steal + out.irq + out.softirq + out.nice;
       out.total == if busy > 100.0 then 100.0 else busy
  }

  lemma SharesOf(out: Metrics, c: Counters, p: Counters, t: u64)
    requires t > 0
    requires out.user == PercentDelta(c.user, p.user, t) && out.system == PercentDelta(c.system, p.system, t)
    requires out.idle == PercentDelta(c.idle, p.idle, t) && out.iowait == PercentDelta(c.iowait, p.iowait, t)
    requires out.steal == PercentDelta(c.steal, p.steal, t) && out.irq == PercentDelta(c.irq, p.irq, t)
    requires out.softirq == PercentDelta(c.softirq, p.softirq, t) && out.nice == PercentDelta(c.nice, p.nice, t)
    requires out.total == ClampPercent(BusySum(c, p, t))
    ensures Shares(out, c, p, t)
  {
    PercentDeltaIs(c.user, p.user, t);
    PercentDeltaIs(c.system, p.system, t);
    PercentDeltaIs(c.idle, p.idle, t);
    PercentDeltaIs(c.iowait, p.iowait, t);
    PercentDeltaIs(c.steal, p.steal, t);
    PercentDeltaIs(c.irq, p.irq, t);
    PercentDeltaIs(c.softirq, p.softirq, t);
    PercentDeltaIs(c.nice, p.nice, t);
  }

  /** The percentages of the whole node, when its total moved. */
  method NodeShares(c: Counters, p: Counters, t: u64) returns (out: Metrics)
    requires 0 < t == DeltaCounter(c.total, p.total)
    ensures Shares(out, c, p, t) && out.total == Busy(c, p) && out.idle == Idle(c, p)
    ensures out.contextSwitchesSec == out.interruptsSec == 0.0
  {
    var user, nice := PercentDelta(c.user, p.user, t), PercentDelta(c.nice, p.nice, t);
    var system, idle := PercentDelta(c.system, p.system, t), PercentDelta(c.idle, p.idle, t);
    var iowait, steal := PercentDelta(c.iowait, p.iowait, t), PercentDelta(c.steal, p.steal, t);
    var irq, softirq := PercentDelta(c.irq, p.irq, t), PercentDelta(c.softirq, p.softirq, t);
    var total := ClampPercent(user + system + iowait + steal + irq + softirq + nice);
    out := Metrics(total, user, system, idle, iowait, steal, irq, softirq, nice, [], 0.0, 0.0);
    SharesOf(out, c, p, t);
  }

  /** The busy percentage of every core both snapshots have. */
  method CoreShares(cur: seq<Counters>, prev: seq<Counters>) returns (perCore: seq<real>)
    ensures |perCore| == if |prev| < |cur| then |prev| else |cur|
    ensures forall i :: 0 <= i < |perCore| ==> perCore[i] == Busy(cur[i], prev[i])
  {
    perCore := [];
    for i := 0 to if |prev| < |cur| then |prev| else |cur|
      invariant |perCore| == i
      invariant forall j :: 0 <= j < i ==> perCore[j] == Busy(cur[j], prev[j])
    {
      var coreDelta := DeltaCounter(cur[i].total, prev[i].total);
      if coreDelta == 0 {
        perCore := perCore + [0.0];
        continue;
      }
      perCore := perCore + [ClampPercent(BusySum(cur[i], prev[i], coreDelta))];
    }
  }

  /** Nothing to report, for so many cores. */
  function Nothing(cores: nat): (out: Metrics)
    ensures |out.perCore| == cores && forall i :: 0 <= i < cores ==> out.perCore[i] == 0.0
    ensures out.total == out.user == out.system == out.idle == out.iowait == 0.0
    ensures out.steal == out.irq == out.softirq == out.nice == out.contextSwitchesSec == out.interruptsSec == 0.0
  {
    Metrics(0.0, 0.0, 0.0, 0.0, 0.0, 0.0, 0.0, 0.0, 0.0, seq(cores, i => 0.0), 0.0, 0.0)
  }

  /** A monotone count's growth a second, nothing if it fell or no time passed. */
  predicate PerSecond(rate: real, before: u64, now: u64, seconds: real) {
    if now > before && seconds > 0.0 then rate == (now - before) as real / seconds else rate == 0.0
  }

  class Sampler {
    var prevSnapshot: Option<Snapshot>

    constructor ()
      ensures prevSnapshot == None
    {
      prevSnapshot := None;
    }

    /** Percentages since the previous snapshot; the first one, and one without progress, report zeros. */
    method ComputeCPURealtime(cur: Snapshot, ready: bool) returns (out: Metrics)
      modifies this
      ensures prevSnapshot == if ready then Some(cur) else old(prevSnapshot)
      ensures !ready ==> out == Nothing(0)
      ensures ready && (old(prevSnapshot) == None || cur.aggregate.total <= old(prevSnapshot).value.aggregate.total)
              ==> out == Nothing(|cur.perCore|)
      ensures ready && old(prevSnapshot).Some? && cur.aggregate.total > old(prevSnapshot).value.aggregate.total ==>
                var prev := old(prevSnapshot).value;
                && Shares(out, cur.aggregate, prev.aggregate, cur.aggregate.total - prev.aggregate.total)
                && out.total == Busy(cur.aggregate, prev.aggregate) && out.idle == Idle(cur.aggregate, prev.aggregate)
                && |out.perCore| == (if |prev.perCore| < |cur.perCore| then |prev.perCore| else |cur.perCore|)
                && (forall i :: 0 <= i < |out.perCore| ==> out.perCore[i] == Busy(cur.perCore[i], prev.perCore[i]))
                && PerSecond(out.contextSwitchesSec, prev.contextSwitches, cur.contextSwitches, cur.at - prev.at)
                && PerSecond(out.interruptsSec, prev.interrupts, cur.interrupts, cur.at - prev.at)
    {
      if !ready {
        return Nothing(0);
      }
      if prevSnapshot == None {
        prevSnapshot := Some(cur);
        return Nothing(|cur.perCore|);
      }
      var prev := prevSnapshot.value;
      prevSnapshot := Some(cur);
      var totalDelta := DeltaCounter(cur.aggregate.total, prev.aggregate.total);
      if totalDelta == 0 {
        return Nothing(|cur.perCore|);
      }
      out := NodeShares(cur.aggregate, prev.aggregate, totalDelta);
      var perCore := CoreShares(cur.perCore, prev.perCore);
      out := out.(perCore := perCore);
      var seconds := cur.at - prev.at;
      if seconds > 0.0 {
        out := out.(
          contextSwitchesSec := DeltaCounter(cur.contextSwitches, prev.contextSwitches) as real / seconds,
          interruptsSec := DeltaCounter(cur.interrupts, prev.interrupts) as real / seconds);
      }
    }
  }

  /** No field decreased, and the total grew by at least the eight fields together. */
  predicate Monotone(cur: Counters, prev: Counters) {
    && cur.user >= prev.user && cur.nice >= prev.nice && cur.system >= prev.system && cur.idle >= prev.idle
    && cur.iowait >= prev.iowait && cur.irq >= prev.irq && cur.softirq >= prev.softirq && cur.steal >= prev.steal
    && cur.total - prev.total >= BusyTicks(cur, prev) + cur.idle - prev.idle
  }

  function BusyTicks(cur: Counters, prev: Counters): int {
    (cur.user - prev.user) + (cur.nice - prev.nice) + (cur.system - prev.system) + (cur.iowait - prev.iowait)
    + (cur.irq - prev.irq) + (cur.softirq - prev.softirq) + (cur.steal - prev.steal)
  }

  function Share(ticks: int, total: int): real
    requires total > 0
  {
    ticks as real / total as real * 100.0
  }

  lemma ShareWithin(ticks: nat, total: nat)
    requires 0 <= ticks <= total && total > 0
    ensures 0.0 <= Share(ticks, total) <= 100.0
    ensures Share(ticks, total) == 100.0 <==> ticks == total
  {
    Divide(ticks as real, total as real);
  }

  lemma Divide(x: real, y: real)
    requires 0.0 <= x <= y && y > 0.0
    ensures 0.0 <= x / y <= 1.0
    ensures x / y == 1.0 <==> x == y
  {
    assert (x / y) * y == x;
  }

  lemma ShareAdds(a: int, b: int, total: int)
    requires total > 0
    ensures Share(a, total) + Share(b, total) == Share(a + b, total)
  {
    assert (a + b) as real / total as real == a as real / total as real + b as real / total as real;
  }

  lemma FieldUnclamped(cur: u64, prev: u64, totalDelta: u64)
    requires prev <= cur && cur - prev <= totalDelta && totalDelta > 0
    ensures PercentDelta(cur, prev, totalDelta) == Share(cur - prev, totalDelta)
  {
    ShareWithin(cur - prev, totalDelta);
  }

  lemma SharesAdd(cur: Counters, prev: Counters)
    requires Monotone(cur, prev) && cur.total > prev.total
    ensures BusySum(cur, prev, cur.total - prev.total) == Share(BusyTicks(cur, prev), cur.total - prev.total)
  {
    var t := cur.total - prev.total;
    var a, b, c := cur.user - prev.user, cur.system - prev.system, cur.iowait - prev.iowait;
    var d, e, f, g := cur.steal - prev.steal, cur.irq - prev.irq, cur.softirq - prev.softirq, cur.nice - prev.nice;
    FieldUnclamped(cur.user, prev.user, t);
    FieldUnclamped(cur.system, prev.system, t);
    FieldUnclamped(cur.iowait, prev.iowait, t);
    FieldUnclamped(cur.steal, prev.steal, t);
    FieldUnclamped(cur.irq, prev.irq, t);
    FieldUnclamped(cur.softirq, prev.softirq, t);
    FieldUnclamped(cur.nice, prev.nice, t);
    ShareAdds(a, b, t);
    ShareAdds(a + b, c, t);
    ShareAdds(a + b + c, d, t);
    ShareAdds(a + b + c + d, e, t);
    ShareAdds(a + b + c + d + e, f, t);
    ShareAdds(a + b + c + d + e + f, g, t);
  }

  // Two lines of the same file, with the same fields.

  /** Every field is at least what it was. */
  predicate Grew(a: seq<u64>, b: seq<u64>) {
    |a| == |b| && forall i :: 0 <= i < |a| ==> a[i] <= b[i]
  }

  function Gains(a: seq<int>, b: seq<int>): (r: seq<int>)
    requires |a| == |b|
    ensures |r| == |a|
  {
    seq(|a|, i requires 0 <= i < |a| => b[i] - a[i])
  }

  lemma {:induction false} SumGains(a: seq<int>, b: seq<int>)
    requires |a| == |b|
    ensures Sum(Gains(a, b)) == Sum(b) - Sum(a)
  {
    if a != [] {
      var n := |a| - 1;
      SumGains(a[..n], b[..n]);
      assert Gains(a, b)[..n] == Gains(a[..n], b[..n]);
    }
  }

  /** A prefix of gains sums to no more than all of them, and to as much exactly when the others are zero. */
  lemma {:induction false} PrefixSum(gains: seq<int>, k: nat)
    requires k <= |gains| && forall i :: 0 <= i < |gains| ==> gains[i] >= 0
    ensures Sum(gains[..k]) <= Sum(gains)
    ensures Sum(gains[..k]) == Sum(gains) <==> forall i :: k <= i < |gains| ==> gains[i] == 0
  {
    var n := |gains| - 1;
    if k == |gains| {
      assert gains[..k] == gains;
    } else {
      assert gains[..n][..k] == gains[..k];
      PrefixSum(gains[..n], k);
    }
  }

  lemma FirstEight(g: seq<int>)
    requires |g| >= 8
    ensures Sum(g[..8]) == g[0] + g[1] + g[2] + g[3] + g[4] + g[5] + g[6] + g[7]
  {
    SumNext(g, 7);
    SumNext(g, 6);
    SumNext(g, 5);
    SumNext(g, 4);
    SumNext(g, 3);
    SumNext(g, 2);
    SumNext(g, 1);
    SumNext(g, 0);
  }

  lemma SumNext(g: seq<int>, k: nat)
    requires k < |g|
    ensures Sum(g[..k + 1]) == Sum(g[..k]) + g[k]
  {
    assert g[..k + 1][..k] == g[..k];
  }

  /** The total grows by the eight fields and whatever extra ones the line has. */
  lemma TotalGrowth(a: seq<u64>, b: seq<u64>)
    requires |a| >= 8 && Grew(a, b)
    ensures var ticks := BusyTicks(CountersOf(b), CountersOf(a)) + (b[3] - a[3]);
            && 0 <= ticks <= Sum(b) - Sum(a)
            && (ticks == Sum(b) - Sum(a) <==> forall i :: 8 <= i < |a| ==> a[i] == b[i])
  {
    var gains := Gains(a, b);
    SumGains(a, b);
    FirstEight(gains);
    PrefixSum(gains, 8);
    assert forall i :: 0 <= i < |a| ==> gains[i] == b[i] - a[i];
  }

  /** Growth of less than 2^64 shows up in full in the wrapping total, unless that reads lower. */
  lemma WrappedGrowth(before: int, after: int)
    requires before <= after && after - before < TWO_64 && after % TWO_64 > before % TWO_64
    ensures after % TWO_64 - before % TWO_64 == after - before
  {
  }

  lemma LinesMonotone(a: seq<u64>, b: seq<u64>)
    requires |a| >= 8 && Grew(a, b) && Sum(b) - Sum(a) < TWO_64
    requires CountersOf(b).total > CountersOf(a).total
    ensures Monotone(CountersOf(b), CountersOf(a))
    ensures CountersOf(b).total - CountersOf(a).total == Sum(b) - Sum(a)
  {
    TotalGrowth(a, b);
    WrappedGrowth(Sum(a), Sum(b));
  }

  /** For lines whose fields only grow no clamp bites: the busy percentages add up exactly. */
  lemma BusyUnclamped(a: seq<u64>, b: seq<u64>)
    requires |a| >= 8 && Grew(a, b) && Sum(b) - Sum(a) < TWO_64
    requires CountersOf(b).total > CountersOf(a).total
    ensures var cur, prev, growth := CountersOf(b), CountersOf(a), Sum(b) - Sum(a);
            && growth > 0 && BusySum(cur, prev, cur.total - prev.total) == Share(BusyTicks(cur, prev), growth)
            && Busy(cur, prev) == Share(BusyTicks(cur, prev), growth)
  {
    LinesMonotone(a, b);
    TotalGrowth(a, b);
    BusyIsShare(CountersOf(b), CountersOf(a));
  }

  lemma BusyIsShare(cur: Counters, prev: Counters)
    requires Monotone(cur, prev) && cur.total > prev.total
    ensures BusySum(cur, prev, cur.total - prev.total) == Share(BusyTicks(cur, prev), cur.total - prev.total)
    ensures Busy(cur, prev) == Share(BusyTicks(cur, prev), cur.total - prev.total)
  {
    SharesAdd(cur, prev);
    ShareWithin(BusyTicks(cur, prev), cur.total - prev.total);
  }

  /**
   For two lines whose fields only grow, by less than 2^64 altogether, total and idle percentages
   add up to at most 100. When the total moved they add up to exactly 100 if and only if no field
   after the eighth did: the total counts those, the percentages do not.
   */
  lemma TotalPlusIdle(a: seq<u64>, b: seq<u64>)
    requires |a| >= 8 && Grew(a, b) && Sum(b) - Sum(a) < TWO_64
    ensures var cur, prev := CountersOf(b), CountersOf(a);
            && Busy(cur, prev) + Idle(cur, prev) <= 100.0
            && (cur.total > prev.total ==>
                  (Busy(cur, prev) + Idle(cur, prev) == 100.0 <==> forall i :: 8 <= i < |a| ==> a[i] == b[i]))
  {
    var cur, prev := CountersOf(b), CountersOf(a);
    if cur.total > prev.total {
      LinesMonotone(a, b);
      BusyUnclamped(a, b);
      TotalGrowth(a, b);
      BusyAndIdle(cur, prev);
    }
  }

  /** The bound on the growth is needed: with all of 2^64 - 1 in two fields both shares reach 100. */
  lemma WrappedTotalWitness()
    ensures var a, b := [0, 0, 0, 0, 0, 0, 0, 0], [TWO_64 - 1, 0, 0, TWO_64 - 1, 0, 0, 0, 0];
            Grew(a, b) && Busy(CountersOf(b), CountersOf(a)) + Idle(CountersOf(b), CountersOf(a)) == 200.0
  {
    var a: seq<u64>, b: seq<u64> := [0, 0, 0, 0, 0, 0, 0, 0], [TWO_64 - 1, 0, 0, TWO_64 - 1, 0, 0, 0, 0];
    FirstEight(a);
    FirstEight(b);
    assert a[..8] == a && b[..8] == b;
    assert CountersOf(a).total == 0 && CountersOf(b).total == TWO_64 - 2;
  }

  lemma BusyAndIdle(cur: Counters, prev: Counters)
    requires Monotone(cur, prev) && cur.total > prev.total
    requires Busy(cur, prev) == Share(BusyTicks(cur, prev), cur.total - prev.total)
    ensures Busy(cur, prev) + Idle(cur, prev) <= 100.0
    ensures Busy(cur, prev) + Idle(cur, prev) == 100.0
            <==> cur.total - prev.total == BusyTicks(cur, prev) + (cur.idle - prev.idle)
  {
    var t := cur.total - prev.total;
    FieldUnclamped(cur.idle, prev.idle, t);
    ShareAdds(BusyTicks(cur, prev), cur.idle - prev.idle, t);
    ShareWithin(BusyTicks(cur, prev) + (cur.idle - prev.idle), t);
  }
}
