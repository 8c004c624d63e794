/**
 The inventory sync protocol of internal/collector/scheduler.go as a step system:
 the runtime loop and the periodic loop interleave at the points where they hold
 the mutex or hand a frame to the sink. One delivery is one step, which is what
 the retrying sink provides (see GRPCClient.SendVMInfoSync).
 */
module SyncProtocol {
  import opened Wrappers
  import opened VMInfoSync
  import opened SyncFrames

  datatype RuntimeLoop =
    | RIdle
    | RSending(current: Inventory, frame: Frame)
    | RAcked(current: Inventory)

  datatype PeriodicLoop =
    | PIdle
    | PSending(snapshot: Inventory)
    | PAcked(snapshot: Inventory)

  /** The three variables under the mutex, the receiver's mirror, and where each loop stands. */
  datatype World = World(
    latest: Inventory,
    last: Inventory,
    synced: bool,
    mirror: Inventory,
    runtime: RuntimeLoop,
    periodic: PeriodicLoop
  )

  datatype Step =
    | RCompute(current: Inventory)
    | RDeliver
    | RCommit
    | RFail(applied: bool)
    | PSnapshot
    | PDeliver
    | PCommit
    | PFail(applied: bool)

  /** A booted agent knows nothing; the receiver may hold anything. */
  ghost function Boot(mirror: Inventory): World {
    World(map[], map[], false, mirror, RIdle, PIdle)
  }

  ghost function PeriodicFrame(snapshot: Inventory): Frame {
    FullFrame(snapshot, "periodic_sync")
  }

  ghost predicate Enabled(w: World, s: Step) {
    match s
    case RCompute(current) => w.runtime.RIdle? && WellKeyed(current)
    case RDeliver => w.runtime.RSending?
    case RCommit => w.runtime.RAcked?
    case RFail(_) => w.runtime.RSending?
    case PSnapshot => w.periodic.PIdle?
    case PDeliver => w.periodic.PSending?
    case PCommit => w.periodic.PAcked?
    case PFail(_) => w.periodic.PSending?
  }

  /** What the periodic commit leaves in last. */
  ghost function Pending(latest: Inventory, last: Inventory): Inventory {
    if |latest| > 0 then latest else last
  }

  ghost function Next(w: World, s: Step): World
    requires Enabled(w, s)
  {
    match s
    case RCompute(current) =>
      var frame := FrameFor(w.last, w.synced, current, "runtime_change");
      w.(latest := current,
         runtime := if frame.Some? then RSending(current, frame.value) else RIdle)
    case RDeliver =>
      w.(mirror := Apply(w.mirror, w.runtime.frame), runtime := RAcked(w.runtime.current))
    case RCommit =>
      w.(synced := true, last := w.runtime.current, latest := w.runtime.current, runtime := RIdle)
    case RFail(applied) =>
      w.(mirror := if applied then Apply(w.mirror, w.runtime.frame) else w.mirror, runtime := RIdle)
    case PSnapshot =>
      if |w.latest| == 0 then w else w.(periodic := PSending(w.latest))
    case PDeliver =>
      w.(mirror := Apply(w.mirror, PeriodicFrame(w.periodic.snapshot)), periodic := PAcked(w.periodic.snapshot))
    case PCommit =>
      w.(synced := true, last := Pending(w.latest, w.last), periodic := PIdle)
    case PFail(applied) =>
      w.(mirror := if applied then Apply(w.mirror, PeriodicFrame(w.periodic.snapshot)) else w.mirror, periodic := PIdle)
  }

  ghost predicate Quiescent(w: World) {
    w.runtime.RIdle? && w.periodic.PIdle?
  }

  /** With no sync in flight, the mirror is what the agent believes it to be. */
  ghost predicate Consistent(w: World) {
    Quiescent(w) && w.synced ==> w.mirror == w.last
  }

  /**
   When a new inventory may be computed. Between a periodic snapshot and its
   delivery it must equal the snapshot; between the delivery and the commit it
   must not change what that commit is going to record.
   */
  ghost predicate Fresh(w: World, current: Inventory) {
    match w.periodic
    case PIdle => true
    case PSending(snapshot) => current == snapshot
    case PAcked(_) => Pending(current, w.last) == Pending(w.latest, w.last)
  }

  ghost predicate FreshStep(w: World, s: Step) {
    Enabled(w, s) && (s.RCompute? ==> Fresh(w, s.current))
  }

  ghost predicate GoodStep(w: World, s: Step) {
    FreshStep(w, s) && (s.RFail? || s.PFail? ==> !s.applied)
  }

  ghost predicate Possible(w: World, steps: seq<Step>)
    decreases |steps|
  {
    steps != [] ==> Enabled(w, steps[0]) && Possible(Next(w, steps[0]), steps[1..])
  }

  ghost predicate FreshRun(w: World, steps: seq<Step>)
    decreases |steps|
  {
    steps != [] ==> FreshStep(w, steps[0]) && FreshRun(Next(w, steps[0]), steps[1..])
  }

  ghost predicate GoodRun(w: World, steps: seq<Step>)
    decreases |steps|
  {
    steps != [] ==> GoodStep(w, steps[0]) && GoodRun(Next(w, steps[0]), steps[1..])
  }

  ghost function Run(w: World, steps: seq<Step>): World
    requires Possible(w, steps)
    decreases |steps|
  {
    if steps == [] then w else Run(Next(w, steps[0]), steps[1..])
  }

  // ---------------------------------------------------------------------------
  // Drift over every interleaving
  // ---------------------------------------------------------------------------

  /** On every id not in doubt the mirror agrees with one of two inventories. */
  ghost predicate Between(mirror: Inventory, base: Inventory, current: Inventory, doubt: set<string>) {
    forall id :: id !in doubt ==> Get(mirror, id) == Get(base, id) || Get(mirror, id) == Get(current, id)
  }

  /** A frame in flight carries its inventory to a mirror that, doubts aside, holds its base or has it already. */
  ghost predicate FrameInFlight(w: World, doubt: set<string>)
    requires w.runtime.RSending?
  {
    var current := w.runtime.current;
    || w.runtime.frame == FullFrame(current, "agent_boot")
    || exists base ::
         w.runtime.frame == DeltaFrame(base, current, "runtime_change") && Between(w.mirror, base, current, doubt)
  }

  /** Only on ids in doubt does the mirror differ from what the agent is going to believe. */
  ghost predicate Within(w: World, doubt: set<string>) {
    && WellKeyed(w.latest) && WellKeyed(w.last)
    && (!w.synced ==> w.last == map[])
    && (!w.runtime.RIdle? ==> w.runtime.current == w.latest)
    && (w.runtime.RSending? ==> FrameInFlight(w, doubt))
    && (w.periodic.PSending? ==> w.periodic.snapshot == w.latest && |w.latest| > 0)
    && (w.runtime.RAcked? ==> Drift(w.mirror, w.latest) <= doubt)
    && (!w.runtime.RAcked? && w.periodic.PAcked? ==> Drift(w.mirror, Pending(w.latest, w.last)) <= doubt)
    && (!w.runtime.RAcked? && !w.periodic.PAcked? && w.synced ==> Drift(w.mirror, w.last) <= doubt)
  }

  ghost predicate Inv(w: World) {
    Within(w, {})
  }

  /**
   The ids in doubt after a step. A frame that was applied but failed puts those in doubt on which
   it differs from what the agent believes; a delivered delta clears the ids it mentions, and a full
   frame that reaches the receiver clears all others.
   */
  ghost function DoubtAfter(w: World, s: Step, doubt: set<string>): set<string>
    requires Enabled(w, s)
  {
    match s
    case RDeliver => if w.runtime.frame.mode.Full? then {} else doubt - FrameIDs(w.runtime.frame)
    case PDeliver => {}
    case RFail(applied) =>
      if !applied then doubt
      else Named(w.last, w.runtime.current) + if w.runtime.frame.mode.Full? then {} else doubt
    case PFail(applied) => if applied then Named(w.last, w.periodic.snapshot) else doubt
    case _ => doubt
  }

  ghost function Doubt(w: World, steps: seq<Step>, doubt: set<string>): set<string>
    requires Possible(w, steps)
    decreases |steps|
  {
    if steps == [] then doubt else Doubt(Next(w, steps[0]), steps[1..], DoubtAfter(w, steps[0], doubt))
  }

  lemma BootInv(mirror: Inventory)
    ensures Inv(Boot(mirror))
  {
  }

  /** What a frame in flight leaves in doubt when it reaches the receiver. */
  lemma DeliveryDrift(w: World, doubt: set<string>)
    requires Within(w, doubt) && w.runtime.RSending?
    ensures Drift(Apply(w.mirror, w.runtime.frame), w.runtime.current)
            <= if w.runtime.frame.mode.Full? then {} else doubt - FrameIDs(w.runtime.frame)
  {
    var current := w.runtime.current;
    if w.runtime.frame == FullFrame(current, "agent_boot") {
      AckedFullDrift(w.mirror, current, "agent_boot");
    } else {
      var base :| w.runtime.frame == DeltaFrame(base, current, "runtime_change")
                  && Between(w.mirror, base, current, doubt);
      AckedDeltaDrift(w.mirror, base, current, "runtime_change");
      DeltaFrameIDs(base, current, "runtime_change");
      NamedIsDrift(base, current);
      DriftMembers(w.mirror, base);
      DriftMembers(base, current);
    }
  }

  lemma ComputeKeepsWithin(w: World, current: Inventory, doubt: set<string>)
    requires Within(w, doubt) && FreshStep(w, RCompute(current))
    ensures Within(Next(w, RCompute(current)), doubt)
  {
    var after := Next(w, RCompute(current));
    DriftMembers(w.mirror, w.last);
    DriftMembers(w.mirror, Pending(w.latest, w.last));
    if after.runtime.RSending? && w.synced {
      assert after.runtime.frame == DeltaFrame(w.last, current, "runtime_change");
      assert Between(w.mirror, w.last, current, doubt);
    }
  }

  lemma RuntimeFailKeepsWithin(w: World, applied: bool, doubt: set<string>)
    requires Within(w, doubt) && Enabled(w, RFail(applied))
    ensures Within(Next(w, RFail(applied)), DoubtAfter(w, RFail(applied), doubt))
  {
    if applied {
      var mirror := Apply(w.mirror, w.runtime.frame);
      DeliveryDrift(w, doubt);
      DriftVia(mirror, w.runtime.current, w.last);
    }
  }

  /** Two inventories differ at most where a third differs from one of them. */
  lemma DriftVia(a: Inventory, b: Inventory, c: Inventory)
    ensures Drift(a, c) <= Drift(a, b) + Named(c, b)
  {
    DriftMembers(a, b);
    DriftMembers(a, c);
    DriftMembers(c, b);
    NamedIsDrift(c, b);
  }

  /** A frame in flight to a mirror that already has its inventory leaves no doubt. */
  lemma FrameOvertaken(w: World, after: World, doubt: set<string>, left: set<string>)
    requires w.runtime.RSending? && FrameInFlight(w, doubt)
    requires after.runtime == w.runtime && after.mirror == w.runtime.current
    ensures FrameInFlight(after, left)
  {
    if w.runtime.frame != FullFrame(w.runtime.current, "agent_boot") {
      var base :| w.runtime.frame == DeltaFrame(base, w.runtime.current, "runtime_change");
      assert Between(after.mirror, base, w.runtime.current, left);
    }
  }

  /** A full frame of the latest inventory reaches the receiver, acknowledged or not. */
  lemma SnapshotArrives(w: World, s: Step, doubt: set<string>)
    requires Within(w, doubt) && Enabled(w, s) && (s == PDeliver || s == PFail(true))
    ensures Within(Next(w, s), DoubtAfter(w, s, doubt))
  {
    FullFrameReplaces(w.mirror, w.periodic.snapshot, "periodic_sync");
    DriftMembers(w.latest, w.latest);
    DriftVia(w.latest, w.latest, w.last);
    if w.runtime.RSending? {
      FrameOvertaken(w, Next(w, s), doubt, DoubtAfter(w, s, doubt));
    }
  }

  /** Every step keeps the mirror within what it leaves in doubt. */
  lemma StepKeepsWithin(w: World, s: Step, doubt: set<string>)
    requires Within(w, doubt) && FreshStep(w, s)
    ensures Within(Next(w, s), DoubtAfter(w, s, doubt))
  {
    match s {
      case RCompute(current) =>
        ComputeKeepsWithin(w, current, doubt);
      case RDeliver =>
        DeliveryDrift(w, doubt);
      case RFail(applied) =>
        RuntimeFailKeepsWithin(w, applied, doubt);
      case PDeliver =>
        SnapshotArrives(w, s, doubt);
      case PFail(applied) =>
        if applied {
          SnapshotArrives(w, s, doubt);
        } else {
          FrameStaysInFlight(w, Next(w, s), doubt);
        }
      case _ =>
        FrameStaysInFlight(w, Next(w, s), doubt);
    }
  }

  lemma FrameStaysInFlight(w: World, after: World, doubt: set<string>)
    requires w.runtime.RSending? ==> FrameInFlight(w, doubt)
    requires after.mirror == w.mirror && (after.runtime == w.runtime || after.runtime.RIdle?)
    ensures after.runtime.RSending? ==> FrameInFlight(after, doubt)
  {
    if after.runtime.RSending? && w.runtime.frame != FullFrame(w.runtime.current, "agent_boot") {
      var base :| w.runtime.frame == DeltaFrame(base, w.runtime.current, "runtime_change")
                  && Between(w.mirror, base, w.runtime.current, doubt);
      assert Between(after.mirror, base, after.runtime.current, doubt);
    }
  }

  /**
   In every interleaving of the two loops whose computes are fresh, failed sends being applied or
   not, the mirror differs from last only on ids in doubt whenever no sync is in flight.
   */
  lemma {:induction false} DriftRuns(w: World, steps: seq<Step>, doubt: set<string>)
    requires Within(w, doubt) && FreshRun(w, steps)
    ensures Possible(w, steps)
    ensures Within(Run(w, steps), Doubt(w, steps, doubt))
    ensures var end := Run(w, steps);
            Quiescent(end) && end.synced ==> Drift(end.mirror, end.last) <= Doubt(w, steps, doubt)
    decreases |steps|
  {
    if steps != [] {
      StepKeepsWithin(w, steps[0], doubt);
      DriftRuns(Next(w, steps[0]), steps[1..], DoubtAfter(w, steps[0], doubt));
    }
  }

  lemma DriftFromBoot(mirror: Inventory, steps: seq<Step>)
    requires FreshRun(Boot(mirror), steps)
    ensures Possible(Boot(mirror), steps)
    ensures var end := Run(Boot(mirror), steps);
            Quiescent(end) && end.synced ==> Drift(end.mirror, end.last) <= Doubt(Boot(mirror), steps, {})
  {
    BootInv(mirror);
    DriftRuns(Boot(mirror), steps, {});
  }

  // ---------------------------------------------------------------------------
  // Safety over every interleaving without applied failures
  // ---------------------------------------------------------------------------

  lemma StepKeepsInv(w: World, s: Step)
    requires Inv(w) && GoodStep(w, s)
    ensures Inv(Next(w, s))
  {
    StepKeepsWithin(w, s, {});
    assert DoubtAfter(w, s, {}) == {};
  }

  lemma InvConsistent(w: World)
    requires Inv(w)
    ensures Consistent(w)
  {
    DriftMembers(w.mirror, w.last);
  }

  /**
   In every interleaving of the two loops whose computes are fresh and whose failed
   sends are not applied, the mirror equals last whenever no sync is in flight.
   */
  lemma {:induction false} SafeRuns(w: World, steps: seq<Step>)
    requires Inv(w) && GoodRun(w, steps)
    ensures Possible(w, steps)
    ensures Inv(Run(w, steps)) && Consistent(Run(w, steps))
    decreases |steps|
  {
    if steps != [] {
      StepKeepsInv(w, steps[0]);
      SafeRuns(Next(w, steps[0]), steps[1..]);
    } else {
      InvConsistent(w);
    }
  }

  /** In particular from boot, whatever the receiver held before. */
  lemma SafeFromBoot(mirror: Inventory, steps: seq<Step>)
    requires GoodRun(Boot(mirror), steps)
    ensures Possible(Boot(mirror), steps)
    ensures var end := Run(Boot(mirror), steps);
            Quiescent(end) && end.synced ==> end.mirror == end.last
  {
    BootInv(mirror);
    SafeRuns(Boot(mirror), steps);
  }

  // ---------------------------------------------------------------------------
  // The freshness condition is exact
  // ---------------------------------------------------------------------------

  ghost predicate AlwaysConsistent(w: World) {
    forall steps :: GoodRun(w, steps) ==> Possible(w, steps) && Consistent(Run(w, steps))
  }

  lemma RunFirst(w: World, s: Step, rest: seq<Step>)
    requires Enabled(w, s) && Possible(Next(w, s), rest)
    ensures Possible(w, [s] + rest) && Run(w, [s] + rest) == Run(Next(w, s), rest)
    ensures GoodStep(w, s) && GoodRun(Next(w, s), rest) ==> GoodRun(w, [s] + rest)
  {
    assert ([s] + rest)[1..] == rest;
  }

  lemma RunTwo(w: World, s: Step, t: Step)
    requires GoodStep(w, s) && GoodStep(Next(w, s), t)
    ensures GoodRun(w, [s] + ([t] + [])) && Possible(w, [s] + ([t] + []))
    ensures Run(w, [s] + ([t] + [])) == Next(Next(w, s), t)
  {
    RunFirst(Next(w, s), t, []);
    RunFirst(w, s, [t] + []);
  }

  /** The snapshot lands on top of a newer inventory that was already committed. */
  lemma SnapshotOverwrites(w: World)
    requires w.periodic.PSending? && w.runtime.RIdle? && WellKeyed(w.periodic.snapshot)
    requires w.last == w.latest != w.periodic.snapshot
    ensures GoodRun(w, [PDeliver] + ([PCommit] + [])) && Possible(w, [PDeliver] + ([PCommit] + []))
    ensures !Consistent(Run(w, [PDeliver] + ([PCommit] + [])))
  {
    RunTwo(w, PDeliver, PCommit);
    FullFrameReplaces(w.mirror, w.periodic.snapshot, "periodic_sync");
  }

  /** From a stale compute, a run without further computes or applied failures ends inconsistent. */
  lemma StaleComputeBreaks(w: World, current: Inventory) returns (steps: seq<Step>)
    requires Inv(w) && Enabled(w, RCompute(current)) && !Fresh(w, current)
    ensures GoodRun(Next(w, RCompute(current)), steps) && Possible(Next(w, RCompute(current)), steps)
    ensures !Consistent(Run(Next(w, RCompute(current)), steps))
  {
    if w.periodic.PSending? {
      steps := StaleSnapshotLands(w, current);
    } else {
      steps := StaleCommitRecords(w, current);
    }
  }

  /** The snapshot in flight overtakes the newer inventory. */
  lemma StaleSnapshotLands(w: World, current: Inventory) returns (steps: seq<Step>)
    requires Inv(w) && Enabled(w, RCompute(current)) && !Fresh(w, current) && w.periodic.PSending?
    ensures GoodRun(Next(w, RCompute(current)), steps) && Possible(Next(w, RCompute(current)), steps)
    ensures !Consistent(Run(Next(w, RCompute(current)), steps))
  {
    var computed := Next(w, RCompute(current));
    NoFrameIffUnchanged(w.last, w.synced, current, "runtime_change");
    steps := [PDeliver] + ([PCommit] + []);
    if computed.runtime.RSending? {
      var delivered := Next(computed, RDeliver);
      SnapshotOverwrites(Next(delivered, RCommit));
      RunFirst(delivered, RCommit, steps);
      RunFirst(computed, RDeliver, [RCommit] + steps);
      steps := [RDeliver] + ([RCommit] + steps);
    } else {
      SnapshotOverwrites(computed);
    }
  }

  /** The pending commit records an inventory that was never delivered. */
  lemma StaleCommitRecords(w: World, current: Inventory) returns (steps: seq<Step>)
    requires Inv(w) && Enabled(w, RCompute(current)) && !Fresh(w, current) && w.periodic.PAcked?
    ensures GoodRun(Next(w, RCompute(current)), steps) && Possible(Next(w, RCompute(current)), steps)
    ensures !Consistent(Run(Next(w, RCompute(current)), steps))
  {
    var computed := Next(w, RCompute(current));
    NoFrameIffUnchanged(w.last, w.synced, current, "runtime_change");
    DriftMembers(w.mirror, Pending(w.latest, w.last));
    if computed.runtime.RSending? {
      steps := [RFail(false)] + ([PCommit] + []);
      RunTwo(computed, RFail(false), PCommit);
    } else {
      steps := [PCommit] + [];
      RunFirst(computed, PCommit, []);
    }
  }

  /**
   The condition is exact: computing an inventory keeps every continuation consistent
   if and only if the inventory is fresh.
   */
  lemma FreshnessExact(w: World, current: Inventory)
    requires Inv(w) && Enabled(w, RCompute(current))
    ensures Fresh(w, current) <==> AlwaysConsistent(Next(w, RCompute(current)))
  {
    var computed := Next(w, RCompute(current));
    if Fresh(w, current) {
      StepKeepsInv(w, RCompute(current));
      forall steps | GoodRun(computed, steps)
        ensures Possible(computed, steps) && Consistent(Run(computed, steps))
      {
        SafeRuns(computed, steps);
      }
    } else {
      var steps := StaleComputeBreaks(w, current);
    }
  }

  /** A complete runtime sync in the middle of a run. */
  lemma RunRuntimeSync(w: World, current: Inventory, frame: Frame, rest: seq<Step>)
    requires w.runtime.RIdle? && WellKeyed(current)
    requires FrameFor(w.last, w.synced, current, "runtime_change") == Some(frame)
    requires Possible(Synced(w, current, frame), rest)
    ensures var steps := [RCompute(current)] + ([RDeliver] + ([RCommit] + rest));
            Possible(w, steps) && Run(w, steps) == Run(Synced(w, current, frame), rest)
  {
    var computed := Next(w, RCompute(current));
    var delivered := Next(computed, RDeliver);
    assert Next(delivered, RCommit) == Synced(w, current, frame);
    RunFirst(delivered, RCommit, rest);
    RunFirst(computed, RDeliver, [RCommit] + rest);
    RunFirst(w, RCompute(current), [RDeliver] + ([RCommit] + rest));
  }

  ghost function Synced(w: World, current: Inventory, frame: Frame): World {
    World(current, current, true, Apply(w.mirror, frame), RIdle, w.periodic)
  }

  /** A snapshot of a delivered and committed after the agent moved on to b. */
  lemma SnapshotLands(w: World, a: Inventory, b: Inventory)
    requires WellKeyed(a) && w.periodic == PSending(a) && w.runtime.RIdle? && w.last == w.latest == b
    ensures var steps := [PDeliver] + ([PCommit] + []);
            Possible(w, steps) && Run(w, steps) == World(b, b, true, a, RIdle, PIdle)
  {
    RunTwo(w, PDeliver, PCommit);
    FullFrameReplaces(w.mirror, a, "periodic_sync");
  }

  /**
   The failing schedule in full, from boot and whatever the receiver held: a runtime sync to a, a
   periodic snapshot of it, a complete runtime sync to another inventory b, then delivery and commit
   of the snapshot. No send fails, and the agent ends up believing b while the receiver holds a.
   */
  lemma OverlapWitness(mirror: Inventory, a: Inventory, b: Inventory)
    requires WellKeyed(a) && WellKeyed(b) && |a| > 0 && a != b
    ensures var steps := [RCompute(a), RDeliver, RCommit, PSnapshot, RCompute(b), RDeliver, RCommit, PDeliver, PCommit];
            Possible(Boot(mirror), steps) && Run(Boot(mirror), steps) == World(b, b, true, a, RIdle, PIdle)
  {
    var boot, frame := Boot(mirror), FullFrame(a, "agent_boot");
    var tail := [RCompute(b)] + ([RDeliver] + ([RCommit] + ([PDeliver] + ([PCommit] + []))));
    FullFrameReplaces(mirror, a, "agent_boot");
    assert Synced(boot, a, frame) == World(a, a, true, a, RIdle, PIdle);
    OverlapAtRest(a, b);
    RunRuntimeSync(boot, a, frame, [PSnapshot] + tail);
    assert [RCompute(a)] + ([RDeliver] + ([RCommit] + ([PSnapshot] + tail)))
        == [RCompute(a), RDeliver, RCommit, PSnapshot, RCompute(b), RDeliver, RCommit, PDeliver, PCommit];
  }

  /** The part after a. */
  lemma OverlapAtRest(a: Inventory, b: Inventory)
    requires WellKeyed(a) && WellKeyed(b) && |a| > 0 && a != b
    ensures var w := World(a, a, true, a, RIdle, PIdle);
            var steps := [PSnapshot] + ([RCompute(b)] + ([RDeliver] + ([RCommit] + ([PDeliver] + ([PCommit] + [])))));
            Possible(w, steps) && Run(w, steps) == World(b, b, true, a, RIdle, PIdle)
  {
    NoFrameIffUnchanged(a, true, b, "runtime_change");
    var w, taken := World(a, a, true, a, RIdle, PIdle), World(a, a, true, a, RIdle, PSending(a));
    OverlapTail(taken, a, b, DeltaFrame(a, b, "runtime_change"));
    assert Next(w, PSnapshot) == taken;
    RunFirst(w, PSnapshot, [RCompute(b)] + ([RDeliver] + ([RCommit] + ([PDeliver] + ([PCommit] + [])))));
  }

  /** What follows the snapshot. */
  lemma OverlapTail(taken: World, a: Inventory, b: Inventory, frame: Frame)
    requires WellKeyed(a) && WellKeyed(b)
    requires taken.runtime.RIdle? && taken.periodic == PSending(a)
    requires FrameFor(taken.last, taken.synced, b, "runtime_change") == Some(frame)
    ensures var steps := [RCompute(b)] + ([RDeliver] + ([RCommit] + ([PDeliver] + ([PCommit] + []))));
            Possible(taken, steps) && Run(taken, steps) == World(b, b, true, a, RIdle, PIdle)
  {
    SnapshotLands(Synced(taken, b, frame), a, b);
    RunRuntimeSync(taken, b, frame, [PDeliver] + ([PCommit] + []));
  }

  /** A failed send that was applied after all always leaves a quiescent agent wrong about the mirror. */
  lemma AppliedFailureBreaks(w: World, current: Inventory)
    requires Inv(w) && Quiescent(w) && w.synced && Enabled(w, RCompute(current)) && current != w.last
    ensures var computed := Next(w, RCompute(current));
            computed.runtime.RSending? && !Consistent(Next(computed, RFail(true)))
  {
    NoFrameIffUnchanged(w.last, w.synced, current, "runtime_change");
    InvConsistent(w);
    DeltaInterpolates(w.mirror, w.last, current, "runtime_change");
  }
}
