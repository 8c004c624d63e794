/** The multi-key counter differencing of internal/libvirt/metric/node/delta_engine.go. */
module DeltaEngine {
  import opened Wrappers
  import opened KeyedRuns

  /** A counter difference between two readings, its duration, and whether it is to be used. */
  datatype Delta = Delta(delta: u64, seconds: real, ok: bool)

  function Difference(prev: Option<Reading<u64>>, now: real, cur: u64): Delta {
    if prev == None then Delta(0, 0.0, false)
    else if now - prev.value.at <= 0.0 then Delta(0, 0.0, false)
    else if cur < prev.value.value then Delta(0, now - prev.value.at, false)
    else Delta(cur - prev.value.value, now - prev.value.at, true)
  }

  /** What one reading contributes to the accepted total of its key. */
  function Accepted(p: Reading<u64>, c: Reading<u64>): real {
    var d := Difference(Some(p), c.at, c.value);
    if d.ok then d.delta as real else 0.0
  }

  function Value(r: Reading<u64>): real {
    r.value as real
  }

  class Engine {
    var samples: map<string, Reading<u64>>
    ghost var history: seq<Reading<u64>>

    ghost predicate Valid()
      reads this
    {
      samples == Baselines(history)
    }

    constructor ()
      ensures Valid() && history == []
    {
      samples, history := map[], [];
    }

    /** Compare with the last reading of the key and remember this one, whatever the outcome. */
    method ObserveCounter(key: string, now: real, cur: u64) returns (delta: u64, seconds: real, ok: bool)
      requires Valid()
      modifies this
      ensures Valid() && history == old(history) + [Reading(key, now, cur)]
      ensures samples == old(samples)[key := Reading(key, now, cur)]
      ensures ok <==> key in old(samples) && now > old(samples)[key].at && cur >= old(samples)[key].value
      ensures ok ==> delta == cur - old(samples)[key].value && seconds == now - old(samples)[key].at
      ensures !ok ==>
                && delta == 0
                && seconds == if key in old(samples) && now > old(samples)[key].at
                              then now - old(samples)[key].at else 0.0
      ensures Delta(delta, seconds, ok) ==
              Difference(if key in old(samples) then Some(old(samples)[key]) else None, now, cur)
      ensures Observed(history, key, Accepted) ==
              Observed(old(history), key, Accepted) + if ok then delta as real else 0.0
      ensures forall other :: other != key ==>
                Observed(history, other, Accepted) == Observed(old(history), other, Accepted)
    {
      ghost var before := history;
      var known := key in samples;
      var prev := if known then samples[key] else Reading(key, now, cur);
      samples := samples[key := Reading(key, now, cur)];
      history := history + [Reading(key, now, cur)];
      assert history[..|history| - 1] == before;
      if !known {
        return 0, 0.0, false;
      }
      seconds := now - prev.at;
      if seconds <= 0.0 {
        return 0, 0.0, false;
      }
      if cur < prev.value {
        return 0, seconds, false;
      }
      return cur - prev.value, seconds, true;
    }
  }

  // ---------------------------------------------------------------------------
  // Counters that never read lower
  // ---------------------------------------------------------------------------

  function ValueBetween(p: Reading<u64>, c: Reading<u64>): real {
    Value(c) - Value(p)
  }

  predicate NoRestart(p: Reading<u64>, c: Reading<u64>) {
    p.value <= c.value
  }

  predicate Timely(p: Reading<u64>, c: Reading<u64>) {
    c.at > p.at || c.value == p.value
  }

  /**
   A counter that never reads lower has its growth from first to last reading accepted in full
   exactly when it only grew between readings with time between them.
   */
  lemma AcceptedTelescopes(h: seq<Reading<u64>>, key: string)
    requires ForKey(h, key) != [] && EachStep(ForKey(h, key), NoRestart)
    ensures var os := ForKey(h, key);
            var growth := Value(os[|os| - 1]) - Value(os[0]);
            && Observed(h, key, Accepted) <= growth
            && (Observed(h, key, Accepted) == growth <==> EachStep(os, Timely))
  {
    var os := ForKey(h, key);
    ObservedIsPerKey(h, key, Accepted);
    SteadySteps(os);
    SumStepsCompare(os, Accepted, ValueBetween, Timely);
    ValuesTelescope(os);
  }

  lemma ValuesTelescope(os: seq<Reading<u64>>)
    requires os != []
    ensures SumSteps(os, ValueBetween) == Value(os[|os| - 1]) - Value(os[0])
  {
    Telescope(os, ValueBetween, Value);
  }

  lemma SteadySteps(os: seq<Reading<u64>>)
    requires EachStep(os, NoRestart)
    ensures forall i :: 0 < i < |os| ==> AtMost(os[i - 1], os[i], Accepted, ValueBetween, Timely)
  {
    forall i | 0 < i < |os|
      ensures AtMost(os[i - 1], os[i], Accepted, ValueBetween, Timely)
    {
      assert NoRestart(os[i - 1], os[i]);
      SteadyPair(os[i - 1], os[i]);
    }
  }

  lemma SteadyPair(p: Reading<u64>, c: Reading<u64>)
    requires NoRestart(p, c)
    ensures AtMost(p, c, Accepted, ValueBetween, Timely)
  {
  }

  /** The seconds over which an accepted delta was measured. */
  function AcceptedSeconds(p: Reading<u64>, c: Reading<u64>): real {
    var d := Difference(Some(p), c.at, c.value);
    if d.ok then d.seconds else 0.0
  }

  function TimeBetween(p: Reading<u64>, c: Reading<u64>): real {
    c.at - p.at
  }

  function Time(r: Reading<u64>): real {
    r.at
  }

  predicate ClockForward(p: Reading<u64>, c: Reading<u64>) {
    p.at <= c.at
  }

  predicate Measured(p: Reading<u64>, c: Reading<u64>) {
    c.at == p.at || p.value <= c.value
  }

  /** Accepted deltas cover at most the time from first to last reading, and all of it when none reads lower. */
  lemma AcceptedSecondsTelescope(h: seq<Reading<u64>>, key: string)
    requires ForKey(h, key) != [] && EachStep(ForKey(h, key), ClockForward)
    ensures var os := ForKey(h, key);
            var elapsed := Time(os[|os| - 1]) - Time(os[0]);
            && Observed(h, key, AcceptedSeconds) <= elapsed
            && (Observed(h, key, AcceptedSeconds) == elapsed <==> EachStep(os, Measured))
  {
    var os := ForKey(h, key);
    ObservedIsPerKey(h, key, AcceptedSeconds);
    TimedSteps(os);
    SumStepsCompare(os, AcceptedSeconds, TimeBetween, Measured);
    TimesTelescope(os);
  }

  lemma TimedSteps(os: seq<Reading<u64>>)
    requires EachStep(os, ClockForward)
    ensures forall i :: 0 < i < |os| ==> AtMost(os[i - 1], os[i], AcceptedSeconds, TimeBetween, Measured)
  {
    forall i | 0 < i < |os|
      ensures AtMost(os[i - 1], os[i], AcceptedSeconds, TimeBetween, Measured)
    {
      assert ClockForward(os[i - 1], os[i]);
      TimedPair(os[i - 1], os[i]);
    }
  }

  lemma TimedPair(p: Reading<u64>, c: Reading<u64>)
    requires ClockForward(p, c)
    ensures AtMost(p, c, AcceptedSeconds, TimeBetween, Measured)
  {
  }

  lemma TimesTelescope(os: seq<Reading<u64>>)
    requires os != []
    ensures SumSteps(os, TimeBetween) == Time(os[|os| - 1]) - Time(os[0])
  {
    Telescope(os, TimeBetween, Time);
  }

  // ---------------------------------------------------------------------------
  // Counters that grow, restart and wrap around between readings
  // ---------------------------------------------------------------------------

  datatype Event =
    | Grow(key: string, n: nat)
    | Restart(key: string)
    | Observe(key: string, at: real)

  /** What a counter shows, all it ever counted, and how much of that it no longer shows. */
  datatype Counter = Counter(value: u64, grown: nat, lost: nat)

  /** The counter of a key after some events: 64 bits wide, and from zero again after a restart. */
  function CounterOf(events: seq<Event>, key: string): (c: Counter)
    ensures c.value == c.grown - c.lost
  {
    if events == [] then Counter(0, 0, 0)
    else Step(CounterOf(events[..|events| - 1], key), events[|events| - 1], key)
  }

  function Step(c: Counter, e: Event, key: string): Counter {
    if e.key != key then c
    else match e
      case Grow(_, n) =>
        var value := (c.value + n) % TWO_64;
        Counter(value, c.grown + n, c.lost + c.value + n - value)
      case Restart(_) => Counter(0, c.grown, c.lost + c.value)
      case Observe(_, _) => c
  }

  /** An event after which a counter still shows all it showed before and all it grew by. */
  predicate Harmless(c: Counter, e: Event, key: string) {
    e.key == key ==>
      match e
      case Grow(_, n) => c.value + n < TWO_64
      case Restart(_) => c.value == 0
      case Observe(_, _) => true
  }

  /** Every event from a position on is harmless to the counter it finds. */
  predicate AllHarmless(events: seq<Event>, key: string, i: nat) {
    |events| > i ==>
      var before := events[..|events| - 1];
      Harmless(CounterOf(before, key), events[|events| - 1], key) && AllHarmless(before, key, i)
  }

  /** A counter loses nothing over some events exactly when each restart finds it at zero and no growth wraps around. */
  lemma {:induction false} LossExact(events: seq<Event>, key: string, i: nat)
    requires i <= |events|
    ensures CounterOf(events[..i], key).grown <= CounterOf(events, key).grown
    ensures CounterOf(events[..i], key).lost <= CounterOf(events, key).lost
    ensures CounterOf(events[..i], key).lost == CounterOf(events, key).lost <==> AllHarmless(events, key, i)
    decreases |events|
  {
    if i == |events| {
      assert events[..i] == events;
    } else {
      var before := events[..|events| - 1];
      assert before[..i] == events[..i];
      LossExact(before, key, i);
      StepLoss(CounterOf(before, key), events[|events| - 1], key);
    }
  }

  lemma StepLoss(c: Counter, e: Event, key: string)
    ensures c.grown <= Step(c, e, key).grown && c.lost <= Step(c, e, key).lost
    ensures Step(c, e, key).lost == c.lost <==> Harmless(c, e, key)
  {
  }

  /** The readings taken along the way, each with what was true of its counter. */
  function Readings(events: seq<Event>): seq<Reading<Counter>> {
    if events == [] then []
    else
      var n := |events| - 1;
      Readings(events[..n]) +
      if events[n].Observe? then [Reading(events[n].key, events[n].at, CounterOf(events[..n], events[n].key))] else []
  }

  /** What the engine gets to see of a reading, and of all of them. */
  function Shown(r: Reading<Counter>): Reading<u64> {
    Reading(r.key, r.at, r.value.value)
  }

  function AllShown(rs: seq<Reading<Counter>>): (r: seq<Reading<u64>>)
    ensures |r| == |rs|
  {
    if rs == [] then [] else AllShown(rs[..|rs| - 1]) + [Shown(rs[|rs| - 1])]
  }

  function AcceptedShown(p: Reading<Counter>, c: Reading<Counter>): real {
    Accepted(Shown(p), Shown(c))
  }

  lemma {:induction false} ForKeyShown(rs: seq<Reading<Counter>>, key: string)
    ensures ForKey(AllShown(rs), key) == AllShown(ForKey(rs, key))
  {
    if rs != [] {
      var n := |rs| - 1;
      var before := ForKey(rs[..n], key);
      ForKeyShown(rs[..n], key);
      assert AllShown(rs)[..n] == AllShown(rs[..n]);
      assert rs[n].key != key ==> ForKey(rs, key) == before;
      assert rs[n].key == key ==> (before + [rs[n]])[..|before|] == before;
      assert rs[n].key != key ==> ForKey(AllShown(rs), key) == ForKey(AllShown(rs[..n]), key);
    }
  }

  lemma {:induction false} SumStepsShown(rs: seq<Reading<Counter>>)
    ensures SumSteps(AllShown(rs), Accepted) == SumSteps(rs, AcceptedShown)
  {
    if |rs| > 1 {
      var n := |rs| - 1;
      SumStepsShown(rs[..n]);
      assert AllShown(rs)[..n] == AllShown(rs[..n]);
      assert AllShown(rs[..n])[n - 1] == Shown(rs[n - 1]);
    }
  }

  /** Two readings of one counter, in order. */
  predicate InOrder(p: Reading<Counter>, c: Reading<Counter>) {
    && p.value.value == p.value.grown - p.value.lost && c.value.value == c.value.grown - c.value.lost
    && p.value.grown <= c.value.grown && p.value.lost <= c.value.lost
  }

  /** The readings so far are in order, and so will be any reading taken now. */
  ghost predicate SoFar(os: seq<Reading<Counter>>, now: Counter) {
    && now.value == now.grown - now.lost
    && EachStep(os, InOrder)
    && (os != [] ==> InOrder(os[|os| - 1], Reading("", 0.0, now)))
  }

  lemma {:induction false} ReadingsInOrder(events: seq<Event>, key: string)
    ensures SoFar(ForKey(Readings(events), key), CounterOf(events, key))
  {
    if events != [] {
      var n := |events| - 1;
      var before, now := ForKey(Readings(events[..n]), key), CounterOf(events[..n], key);
      ReadingsInOrder(events[..n], key);
      if events[n].Observe? && events[n].key == key {
        assert Readings(events)[..|Readings(events)| - 1] == Readings(events[..n]);
        assert ForKey(Readings(events), key) == before + [Reading(key, events[n].at, now)];
        ReadNow(before, now, Reading(key, events[n].at, now));
      } else {
        ObservedElsewhere(events, key);
        StepLoss(now, events[n], key);
        StillInOrder(before, now, CounterOf(events, key));
      }
    }
  }

  lemma ReadNow(os: seq<Reading<Counter>>, now: Counter, r: Reading<Counter>)
    requires SoFar(os, now) && r.value == now
    ensures SoFar(os + [r], now)
  {
    assert (os + [r])[..|os|] == os;
    if os != [] {
      EachStepPrefix(os + [r], InOrder);
    }
  }

  lemma StillInOrder(os: seq<Reading<Counter>>, before: Counter, now: Counter)
    requires SoFar(os, before) && now.value == now.grown - now.lost
    requires before.grown <= now.grown && before.lost <= now.lost
    ensures SoFar(os, now)
  {
  }

  /** Only an observation of a key adds to its readings. */
  lemma ObservedElsewhere(events: seq<Event>, key: string)
    requires events != [] && !(events[|events| - 1].Observe? && events[|events| - 1].key == key)
    ensures ForKey(Readings(events), key) == ForKey(Readings(events[..|events| - 1]), key)
  {
    var before := Readings(events[..|events| - 1]);
    if events[|events| - 1].Observe? {
      assert Readings(events)[..|before|] == before;
      assert ForKey(before, key) + [] == ForKey(before, key);
    } else {
      assert Readings(events) == before;
    }
  }

  function GrownBetween(p: Reading<Counter>, c: Reading<Counter>): real {
    Grown(c) - Grown(p)
  }

  function Grown(r: Reading<Counter>): real {
    r.value.grown as real
  }

  /** The counter did not grow, or it grew over some time and lost nothing meanwhile. */
  predicate Kept(p: Reading<Counter>, c: Reading<Counter>) {
    c.value.grown == p.value.grown || (c.at > p.at && c.value.lost == p.value.lost)
  }

  /**
   However counters grow, restart and wrap around, and whichever others are observed in between,
   the accepted deltas of a key never exceed what its counter counted from its first to its last
   observation. They match it exactly when between any two observations it did not grow, or time
   passed and nothing was lost.
   */
  lemma AcceptedAtMostTrue(events: seq<Event>, key: string)
    requires ForKey(Readings(events), key) != []
    ensures var os := ForKey(Readings(events), key);
            var accepted := Observed(AllShown(Readings(events)), key, Accepted);
            var counted := Grown(os[|os| - 1]) - Grown(os[0]);
            accepted <= counted && (accepted == counted <==> EachStep(os, Kept))
  {
    var os := ForKey(Readings(events), key);
    ObservedIsPerKey(AllShown(Readings(events)), key, Accepted);
    ForKeyShown(Readings(events), key);
    SumStepsShown(os);
    ReadingsInOrder(events, key);
    forall i | 0 < i < |os|
      ensures AtMost(os[i - 1], os[i], AcceptedShown, GrownBetween, Kept)
    {
      assert InOrder(os[i - 1], os[i]);
      AcceptedPair(os[i - 1], os[i]);
    }
    SumStepsCompare(os, AcceptedShown, GrownBetween, Kept);
    Telescope(os, GrownBetween, Grown);
  }

  lemma AcceptedPair(p: Reading<Counter>, c: Reading<Counter>)
    requires InOrder(p, c)
    ensures AtMost(p, c, AcceptedShown, GrownBetween, Kept)
  {
  }
}
