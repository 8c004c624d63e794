/**
 Sequential runs of the sync protocol: each sync finishes before the next begins,
 but a send may fail after the receiver applied the frame.
 */
module SyncRuns {
  import opened Wrappers
  import opened VMInfoSync
  import opened SyncFrames
  import opened SyncProtocol

  datatype Outcome = Acked | Refused | AppliedThenErrored

  datatype Event =
    | RuntimeSync(current: Inventory, outcome: Outcome)
    | PeriodicSync(outcome: Outcome)

  ghost predicate ValidEvent(e: Event) {
    e.RuntimeSync? ==> WellKeyed(e.current)
  }

  ghost predicate Ready(w: World) {
    Quiescent(w) && WellKeyed(w.latest) && WellKeyed(w.last)
  }

  /** The frame a sync hands to the sink, if any. */
  ghost function Sent(w: World, e: Event): Option<Frame> {
    match e
    case RuntimeSync(current, _) => FrameFor(w.last, w.synced, current, "runtime_change")
    case PeriodicSync(_) => if |w.latest| == 0 then None else Some(PeriodicFrame(w.latest))
  }

  /** The inventory that frame carries. */
  ghost function Carried(w: World, e: Event): Inventory {
    match e
    case RuntimeSync(current, _) => current
    case PeriodicSync(_) => w.latest
  }

  /** One whole runtime sync, as the steps of the protocol without interleaving. */
  ghost function RuntimeOnce(w: World, current: Inventory, outcome: Outcome): World
    requires Ready(w) && WellKeyed(current)
  {
    var computed := Next(w, RCompute(current));
    if computed.runtime.RIdle? then computed
    else if outcome.Acked? then Next(Next(computed, RDeliver), RCommit)
    else Next(computed, RFail(outcome.AppliedThenErrored?))
  }

  /** One whole periodic sync. */
  ghost function PeriodicOnce(w: World, outcome: Outcome): World
    requires Ready(w)
  {
    var taken := Next(w, PSnapshot);
    if taken.periodic.PIdle? then taken
    else if outcome.Acked? then Next(Next(taken, PDeliver), PCommit)
    else Next(taken, PFail(outcome.AppliedThenErrored?))
  }

  ghost function SyncOnce(w: World, e: Event): World
    requires Ready(w) && ValidEvent(e)
  {
    match e
    case RuntimeSync(current, outcome) => RuntimeOnce(w, current, outcome)
    case PeriodicSync(outcome) => PeriodicOnce(w, outcome)
  }

  /** The world one runtime sync ends in. */
  lemma RuntimeOnceIs(w: World, current: Inventory, outcome: Outcome)
    requires Ready(w) && WellKeyed(current)
    ensures var frame := FrameFor(w.last, w.synced, current, "runtime_change");
            RuntimeOnce(w, current, outcome) ==
            if frame == None then w.(latest := current)
            else match outcome
                 case Acked => World(current, current, true, Apply(w.mirror, frame.value), RIdle, w.periodic)
                 case Refused => w.(latest := current)
                 case AppliedThenErrored => w.(latest := current, mirror := Apply(w.mirror, frame.value))
  {
    var frame := FrameFor(w.last, w.synced, current, "runtime_change");
    var computed := Next(w, RCompute(current));
    assert computed == w.(latest := current, runtime := if frame.Some? then RSending(current, frame.value) else RIdle);
  }

  /** The world one periodic sync ends in. */
  lemma PeriodicOnceIs(w: World, outcome: Outcome)
    requires Ready(w)
    ensures PeriodicOnce(w, outcome) ==
            if |w.latest| == 0 then w
            else match outcome
                 case Acked =>
                   World(w.latest, w.latest, true, Apply(w.mirror, PeriodicFrame(w.latest)), w.runtime, PIdle)
                 case Refused => w
                 case AppliedThenErrored => w.(mirror := Apply(w.mirror, PeriodicFrame(w.latest)))
  {
    var taken := Next(w, PSnapshot);
    if |w.latest| > 0 {
      assert taken == w.(periodic := PSending(w.latest));
      if outcome.Acked? {
        assert Next(taken, PDeliver) ==
               w.(mirror := Apply(w.mirror, PeriodicFrame(w.latest)), periodic := PAcked(w.latest));
      }
    }
  }

  // ---------------------------------------------------------------------------
  // Drift along a run
  // ---------------------------------------------------------------------------

  /** What one sync leaves behind, by outcome. */
  ghost predicate Effect(w: World, sent: Option<Frame>, carried: Inventory, outcome: Outcome, after: World) {
    if sent == None || outcome.Refused? then
      after.mirror == w.mirror && after.last == w.last && after.synced == w.synced
    else if outcome.Acked? then
      after.mirror == Apply(w.mirror, sent.value) && after.last == carried && after.synced
    else
      after.mirror == Apply(w.mirror, sent.value) && after.last == w.last && after.synced == w.synced
  }

  /** Every sent frame is the full or the delta frame of the inventory it carries. */
  ghost predicate Carries(last: Inventory, f: Frame, carried: Inventory) {
    && WellKeyed(carried)
    && match f.mode
       case Full => f == FullFrame(carried, f.reason)
       case Delta => f == DeltaFrame(last, carried, f.reason)
  }

  lemma RuntimeEffect(w: World, current: Inventory, outcome: Outcome)
    requires Ready(w) && WellKeyed(current)
    ensures Effect(w, FrameFor(w.last, w.synced, current, "runtime_change"), current, outcome,
                   RuntimeOnce(w, current, outcome))
    ensures Ready(RuntimeOnce(w, current, outcome))
  {
    RuntimeOnceIs(w, current, outcome);
  }

  lemma PeriodicEffect(w: World, outcome: Outcome)
    requires Ready(w)
    ensures Effect(w, if |w.latest| == 0 then None else Some(PeriodicFrame(w.latest)), w.latest, outcome,
                   PeriodicOnce(w, outcome))
    ensures Ready(PeriodicOnce(w, outcome))
  {
    PeriodicOnceIs(w, outcome);
  }

  lemma SyncOnceEffect(w: World, e: Event)
    requires Ready(w) && ValidEvent(e)
    ensures Effect(w, Sent(w, e), Carried(w, e), e.outcome, SyncOnce(w, e))
    ensures Ready(SyncOnce(w, e))
  {
    match e {
      case RuntimeSync(current, outcome) => RuntimeEffect(w, current, outcome);
      case PeriodicSync(outcome) => PeriodicEffect(w, outcome);
    }
  }

  lemma SentCarries(w: World, e: Event)
    requires Ready(w) && ValidEvent(e)
    ensures Sent(w, e).Some? ==> Carries(w.last, Sent(w, e).value, Carried(w, e))
    ensures Sent(w, e).Some? && Sent(w, e).value.mode.Delta? ==> w.synced
  {
  }

  ghost predicate ValidEvents(events: seq<Event>) {
    forall i :: 0 <= i < |events| ==> ValidEvent(events[i])
  }

  ghost function SyncAll(w: World, events: seq<Event>): (after: World)
    requires Ready(w) && ValidEvents(events)
    ensures Ready(after)
    decreases |events|
  {
    if events == [] then w
    else
      SyncOnceEffect(SyncAll(w, events[..|events| - 1]), events[|events| - 1]);
      SyncOnce(SyncAll(w, events[..|events| - 1]), events[|events| - 1])
  }

  /** The drift one sync leaves, from the drift before it and the ids its frame names. */
  ghost function DriftAfter(
    before: set<string>, sent: Option<Frame>, named: set<string>, outcome: Outcome): set<string>
  {
    if sent == None || outcome.Refused? then before
    else if outcome.Acked? then (if sent.value.mode.Full? then {} else before - named)
    else (if sent.value.mode.Full? then named else before + named)
  }

  lemma EffectDrift(w: World, sent: Option<Frame>, carried: Inventory, outcome: Outcome, after: World)
    requires Effect(w, sent, carried, outcome, after)
    requires sent.Some? ==> Carries(w.last, sent.value, carried)
    ensures Drift(after.mirror, after.last) ==
            DriftAfter(Drift(w.mirror, w.last), sent, Named(w.last, carried), outcome)
  {
    if sent.Some? && !outcome.Refused? {
      var f := sent.value;
      match f.mode {
        case Full =>
          AckedFullDrift(w.mirror, carried, f.reason);
          FullFrameReplaces(w.mirror, carried, f.reason);
          NamedIsDrift(w.last, carried);
          DriftSymmetric(w.last, carried);
        case Delta =>
          AckedDeltaDrift(w.mirror, w.last, carried, f.reason);
          ErroredDeltaDrift(w.mirror, w.last, carried, f.reason);
      }
    }
  }

  /**
   The exact drift after one sync: an acknowledged delta repairs what it names, an
   acknowledged full frame repairs everything, a refused send changes nothing, and an
   applied but failed send makes precisely the named ids wrong.
   */
  lemma SyncOnceDrift(w: World, e: Event)
    requires Ready(w) && ValidEvent(e)
    ensures Drift(SyncOnce(w, e).mirror, SyncOnce(w, e).last) ==
            DriftAfter(Drift(w.mirror, w.last), Sent(w, e), Named(w.last, Carried(w, e)), e.outcome)
  {
    SyncOnceEffect(w, e);
    SentCarries(w, e);
    EffectDrift(w, Sent(w, e), Carried(w, e), e.outcome, SyncOnce(w, e));
  }

  lemma DriftSymmetric(a: Inventory, b: Inventory)
    ensures Drift(a, b) == Drift(b, a)
  {
    DriftMembers(a, b);
    DriftMembers(b, a);
  }

  /** The ids a sync makes wrong: those its frame names, if it fails after being applied. */
  ghost function Misled(w: World, e: Event): set<string> {
    if e.outcome.AppliedThenErrored? && Sent(w, e).Some? then Named(w.last, Carried(w, e)) else {}
  }

  lemma SyncOnceAdds(w: World, e: Event)
    requires Ready(w) && ValidEvent(e)
    ensures Drift(SyncOnce(w, e).mirror, SyncOnce(w, e).last) <= Drift(w.mirror, w.last) + Misled(w, e)
  {
    SyncOnceDrift(w, e);
    DriftAfterAdds(Drift(w.mirror, w.last), Sent(w, e), Named(w.last, Carried(w, e)), e.outcome);
  }

  lemma DriftAfterAdds(before: set<string>, sent: Option<Frame>, named: set<string>, outcome: Outcome)
    ensures DriftAfter(before, sent, named, outcome)
            <= before + (if outcome.AppliedThenErrored? && sent.Some? then named else {})
  {
  }

  /** The ids named by frames of a run that failed after being applied. */
  ghost function ErroredNames(w: World, events: seq<Event>): set<string>
    requires Ready(w) && ValidEvents(events)
    decreases |events|
  {
    if events == [] then {}
    else
      var n := |events| - 1;
      ErroredNames(w, events[..n]) + Misled(SyncAll(w, events[..n]), events[n])
  }

  /** Over any run from any mirror, only frames that failed after being applied add disagreement. */
  lemma {:induction false} RunDrift(w: World, events: seq<Event>)
    requires Ready(w) && ValidEvents(events)
    ensures var after := SyncAll(w, events);
            Drift(after.mirror, after.last) <= Drift(w.mirror, w.last) + ErroredNames(w, events)
    decreases |events|
  {
    if events != [] {
      var n := |events| - 1;
      var before := SyncAll(w, events[..n]);
      RunDrift(w, events[..n]);
      SyncOnceAdds(before, events[n]);
      assert SyncAll(w, events) == SyncOnce(before, events[n]);
    }
  }

  /** An acknowledged full frame forgets the past: later drift comes from later failures alone. */
  lemma HealedRun(w: World, e: Event, events: seq<Event>)
    requires Ready(w) && ValidEvent(e) && ValidEvents(events)
    requires e.outcome.Acked? && Sent(w, e).Some? && Sent(w, e).value.mode.Full?
    ensures Ready(SyncOnce(w, e))
    ensures var healed := SyncOnce(w, e);
            var after := SyncAll(healed, events);
            Drift(after.mirror, after.last) <= ErroredNames(healed, events)
  {
    SyncOnceEffect(w, e);
    SyncOnceDrift(w, e);
    RunDrift(SyncOnce(w, e), events);
  }

  // ---------------------------------------------------------------------------
  // The log of acknowledged frames
  // ---------------------------------------------------------------------------

  ghost function AckedFrames(w: World, events: seq<Event>): seq<Frame>
    requires Ready(w) && ValidEvents(events)
    decreases |events|
  {
    if events == [] then []
    else
      var n := |events| - 1;
      var sent := Sent(SyncAll(w, events[..n]), events[n]);
      AckedFrames(w, events[..n]) + if events[n].outcome.Acked? && sent.Some? then [sent.value] else []
  }

  /** What the log of acknowledged frames says about the agent. */
  ghost predicate LogExplains(log: seq<Frame>, w: World) {
    && (w.synced <==> log != [])
    && (log != [] ==> log[0].mode.Full? && forall start :: Replay(start, log) == w.last)
  }

  lemma EffectOnLog(log: seq<Frame>, w: World, sent: Option<Frame>, carried: Inventory, outcome: Outcome, after: World)
    requires LogExplains(log, w) && Effect(w, sent, carried, outcome, after)
    requires sent.Some? ==> Carries(w.last, sent.value, carried)
    requires sent.Some? && sent.value.mode.Delta? ==> w.synced
    ensures LogExplains(log + if outcome.Acked? && sent.Some? then [sent.value] else [], after)
  {
    if outcome.Acked? && sent.Some? {
      forall start
        ensures Replay(start, log + [sent.value]) == carried
      {
        assert (log + [sent.value])[..|log|] == log;
        CarriedFrameReaches(Replay(start, log), w.last, sent.value, carried);
      }
    } else {
      assert log + [] == log;
    }
  }

  /** A sent frame takes last, or anything if it is full, to the inventory it carries. */
  lemma CarriedFrameReaches(start: Inventory, last: Inventory, f: Frame, carried: Inventory)
    requires Carries(last, f, carried)
    requires f.mode.Delta? ==> start == last
    ensures Apply(start, f) == carried
  {
    match f.mode {
      case Full => FullFrameReplaces(start, carried, f.reason);
      case Delta => DeltaInterpolates(start, last, carried, f.reason);
    }
  }

  /**
   In any run of a booted agent the acknowledged frames start with a full one, no delta is
   sent before one is acknowledged, and replaying them onto any mirror at all yields last.
   */
  lemma {:induction false} LogReplaysToLast(mirror: Inventory, events: seq<Event>)
    requires ValidEvents(events)
    ensures LogExplains(AckedFrames(Boot(mirror), events), SyncAll(Boot(mirror), events))
    ensures forall e :: ValidEvent(e) && Sent(SyncAll(Boot(mirror), events), e).Some?
                        && AckedFrames(Boot(mirror), events) == []
                        ==> Sent(SyncAll(Boot(mirror), events), e).value.mode.Full?
    decreases |events|
  {
    if events != [] {
      var n := |events| - 1;
      LogReplaysToLast(mirror, events[..n]);
      var w := SyncAll(Boot(mirror), events[..n]);
      SyncOnceEffect(w, events[n]);
      SentCarries(w, events[n]);
      EffectOnLog(AckedFrames(Boot(mirror), events[..n]), w, Sent(w, events[n]),
                  Carried(w, events[n]), events[n].outcome, SyncOnce(w, events[n]));
    }
    forall e | ValidEvent(e)
      ensures Sent(SyncAll(Boot(mirror), events), e).Some? && Sent(SyncAll(Boot(mirror), events), e).value.mode.Delta?
              ==> SyncAll(Boot(mirror), events).synced
    {
      SentCarries(SyncAll(Boot(mirror), events), e);
    }
  }

  /**
   What a runtime sync sends, in any run of a booted agent: a full frame until one was acknowledged,
   and from then on a delta that mentions exactly the ids on which the two inventories differ.
   */
  lemma RuntimeFrames(mirror: Inventory, events: seq<Event>, current: Inventory, outcome: Outcome)
    requires ValidEvents(events) && WellKeyed(current)
    ensures var w := SyncAll(Boot(mirror), events);
            var sent := Sent(w, RuntimeSync(current, outcome));
            if AckedFrames(Boot(mirror), events) == []
            then sent.Some? && IsCanonicalFull(sent.value, current) && sent.value.reason == "agent_boot"
            else && (sent == None <==> w.last == current)
                 && (sent.Some? ==>
                       && IsCanonicalDelta(sent.value, w.last, current) && sent.value.reason == "runtime_change"
                       && FrameIDs(sent.value) == Drift(w.last, current))
  {
    var w := SyncAll(Boot(mirror), events);
    LogReplaysToLast(mirror, events);
    FrameForExact(w.last, w.synced, current);
    CanonicalDeltaIDs(w.last, current, "runtime_change");
  }

  lemma CanonicalDeltaIDs(last: Inventory, current: Inventory, reason: string)
    requires WellKeyed(current)
    ensures forall f :: IsCanonicalDelta(f, last, current) && f.reason == reason ==> FrameIDs(f) == Drift(last, current)
  {
    DeltaCanonical(last, current, reason);
    DeltaFrameIDs(last, current, reason);
    NamedIsDrift(last, current);
  }
}
