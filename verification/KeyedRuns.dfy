/**
 Histories of readings for many keys, and sums over the successive readings of one
 key. Every sampler of the agent works on such pairs.
 */
module KeyedRuns {
  import opened Wrappers

  /** A reading taken at a time in seconds. */
  datatype Reading<T> = Reading(key: string, at: real, value: T)

  /** The readings of one key, in order. */
  function ForKey<T>(h: seq<Reading<T>>, key: string): (r: seq<Reading<T>>)
    ensures forall x :: x in r ==> x.key == key
  {
    if h == [] then []
    else ForKey(h[..|h| - 1], key) + if h[|h| - 1].key == key then [h[|h| - 1]] else []
  }

  /** What a map overwritten by every reading holds at the end. */
  function Baselines<T>(h: seq<Reading<T>>): map<string, Reading<T>> {
    if h == [] then map[]
    else Baselines(h[..|h| - 1])[h[|h| - 1].key := h[|h| - 1]]
  }

  /** The baseline of a key is its own last reading; other keys do not touch it. */
  lemma {:induction false} BaselineIsLast<T>(h: seq<Reading<T>>, key: string)
    ensures key in Baselines(h) <==> ForKey(h, key) != []
    ensures key in Baselines(h) ==> Baselines(h)[key] == ForKey(h, key)[|ForKey(h, key)| - 1]
  {
    if h != [] {
      BaselineIsLast(h[..|h| - 1], key);
    }
  }

  /** What a sampler yields for a key over a whole history: each reading against the baseline it finds. */
  function Observed<T>(h: seq<Reading<T>>, key: string, step: (Reading<T>, Reading<T>) -> real): real {
    if h == [] then 0.0
    else
      var n := |h| - 1;
      var before := Baselines(h[..n]);
      Observed(h[..n], key, step) +
      if h[n].key == key && key in before then step(before[key], h[n]) else 0.0
  }

  /** What a further reading adds, for its own key and for all others. */
  lemma ObservedNext<T>(
    h: seq<Reading<T>>, r: Reading<T>, step: (Reading<T>, Reading<T>) -> real, amount: real)
    requires amount == if r.key in Baselines(h) then step(Baselines(h)[r.key], r) else 0.0
    ensures Observed(h + [r], r.key, step) == Observed(h, r.key, step) + amount
    ensures forall other :: other != r.key ==> Observed(h + [r], other, step) == Observed(h, other, step)
  {
    assert (h + [r])[..|h|] == h;
  }

  /** The same over the successive readings of one key alone. */
  function SumSteps<T>(os: seq<Reading<T>>, step: (Reading<T>, Reading<T>) -> real): real {
    if |os| <= 1 then 0.0
    else SumSteps(os[..|os| - 1], step) + step(os[|os| - 2], os[|os| - 1])
  }

  /** Readings of other keys, however interleaved, have no effect. */
  lemma {:induction false} ObservedIsPerKey<T>(h: seq<Reading<T>>, key: string, step: (Reading<T>, Reading<T>) -> real)
    ensures Observed(h, key, step) == SumSteps(ForKey(h, key), step)
  {
    if h != [] {
      var n := |h| - 1;
      ObservedIsPerKey(h[..n], key, step);
      BaselineIsLast(h[..n], key);
      var os := ForKey(h[..n], key);
      if h[n].key == key {
        assert (os + [h[n]])[..|os|] == os;
      } else {
        assert os + [] == os;
      }
    }
  }

  /** Every two successive readings are related. */
  ghost predicate EachStep<T(!new)>(os: seq<Reading<T>>, related: (Reading<T>, Reading<T>) -> bool) {
    forall i :: 0 < i < |os| ==> related(os[i - 1], os[i])
  }

  lemma EachStepPrefix<T(!new)>(os: seq<Reading<T>>, related: (Reading<T>, Reading<T>) -> bool)
    requires |os| > 1
    ensures EachStep(os, related)
            <==> EachStep(os[..|os| - 1], related) && related(os[|os| - 2], os[|os| - 1])
  {
    var n := |os| - 1;
    if EachStep(os[..n], related) && related(os[n - 1], os[n]) {
      forall i | 0 < i < |os|
        ensures related(os[i - 1], os[i])
      {
        assert i < n ==> os[..n][i - 1] == os[i - 1] && os[..n][i] == os[i];
      }
    }
  }

  /** One step is at most the other, and equal to it exactly when the two readings are related. */
  ghost predicate AtMost<T>(
    p: Reading<T>, c: Reading<T>,
    small: (Reading<T>, Reading<T>) -> real, large: (Reading<T>, Reading<T>) -> real,
    exact: (Reading<T>, Reading<T>) -> bool)
  {
    small(p, c) <= large(p, c) && (small(p, c) == large(p, c) <==> exact(p, c))
  }

  /** Steps that never exceed others sum to no more, and to as much exactly when none falls short. */
  lemma {:induction false} SumStepsCompare<T(!new)>(
    os: seq<Reading<T>>, small: (Reading<T>, Reading<T>) -> real, large: (Reading<T>, Reading<T>) -> real,
    exact: (Reading<T>, Reading<T>) -> bool)
    requires forall i :: 0 < i < |os| ==> AtMost(os[i - 1], os[i], small, large, exact)
    ensures SumSteps(os, small) <= SumSteps(os, large)
    ensures SumSteps(os, small) == SumSteps(os, large) <==> EachStep(os, exact)
  {
    if |os| > 1 {
      var n := |os| - 1;
      forall i | 0 < i < n
        ensures AtMost(os[..n][i - 1], os[..n][i], small, large, exact)
      {
      }
      SumStepsCompare(os[..n], small, large, exact);
      EachStepPrefix(os, exact);
      assert AtMost(os[n - 1], os[n], small, large, exact);
    }
  }

  lemma {:induction false} SumStepsAdd<T(!new)>(
    os: seq<Reading<T>>, whole: (Reading<T>, Reading<T>) -> real,
    one: (Reading<T>, Reading<T>) -> real, other: (Reading<T>, Reading<T>) -> real)
    requires forall i :: 0 < i < |os| ==> whole(os[i - 1], os[i]) == one(os[i - 1], os[i]) + other(os[i - 1], os[i])
    ensures SumSteps(os, whole) == SumSteps(os, one) + SumSteps(os, other)
  {
    if |os| > 1 {
      SumStepsAdd(os[..|os| - 1], whole, one, other);
    }
  }

  /** Differences of a level add up to last minus first. */
  lemma {:induction false} Telescope<T(!new)>(
    os: seq<Reading<T>>, step: (Reading<T>, Reading<T>) -> real, level: Reading<T> -> real)
    requires os != []
    requires forall i :: 0 < i < |os| ==> step(os[i - 1], os[i]) == level(os[i]) - level(os[i - 1])
    ensures SumSteps(os, step) == level(os[|os| - 1]) - level(os[0])
  {
    if |os| > 1 {
      Telescope(os[..|os| - 1], step, level);
    }
  }
}
