/**
 The scheduler of internal/collector/scheduler.go: three variables under a mutex,
 from which it computes and commits inventory frames. Its methods refine the step
 system of SyncProtocol when they run one after the other.
 */
module Scheduler {
  import opened Wrappers
  import opened IDOrder
  import opened VMInfoSync
  import opened SyncFrames
  import opened SyncProtocol
  import opened SyncRuns
  import opened GRPCClient

  /** A copy made entry by entry. */
  method CloneVMInfoMap(m: Inventory) returns (out: Inventory)
    ensures out == m
  {
    out := map[];
    var todo := m.Keys;
    while todo != {}
      invariant todo <= m.Keys
      invariant out.Keys == m.Keys - todo
      invariant forall id :: id in out ==> out[id] == m[id]
    {
      var id :| id in todo;
      out := out[id := m[id]];
      todo := todo - {id};
    }
  }

  /** The changed and new entries, in whatever order the map is iterated. */
  method CollectUpserts(last: Inventory, current: Inventory) returns (upserts: seq<VMInfo>)
    requires WellKeyed(current)
    ensures upserts == DeltaFrame(last, current, "").upserts
  {
    upserts := [];
    var todo := current.Keys;
    while todo != {}
      invariant todo <= current.Keys
      invariant forall v :: v in upserts <==> v.vmID in Changed(last, current) - todo && current[v.vmID] == v
      invariant DistinctBy(upserts, IDOf)
    {
      var id :| id in todo;
      if id !in last || last[id] != current[id] {
        upserts := upserts + [current[id]];
      }
      todo := todo - {id};
    }
    var sorted := SortBy(upserts, IDOf);
    SameElements(sorted, upserts);
    AscendingEntries(sorted, current, Changed(last, current));
    upserts := sorted;
  }

  /** The ids that disappeared, in whatever order the map is iterated. */
  method CollectRemoved(last: Inventory, current: Inventory) returns (removed: seq<string>)
    ensures removed == DeltaFrame(last, current, "").removedVMIDs
  {
    removed := [];
    var todo := last.Keys;
    while todo != {}
      invariant todo <= last.Keys
      invariant forall id :: id in removed <==> id in Gone(last, current) - todo
      invariant DistinctBy(removed, Itself)
    {
      var id :| id in todo;
      assert id !in removed;
      if id !in current {
        removed := removed + [id];
      }
      todo := todo - {id};
    }
    removed := SortStrings(removed);
    SortedIDsUnique(removed, Gone(last, current));
  }

  /** Nothing but one frame, in any number of copies, reached the receiver meanwhile. */
  ghost predicate OnlySent(before: seq<Unary>, after: seq<Unary>, frame: Frame) {
    before <= after && forall i :: |before| <= i < |after| ==> after[i] == InfoSync(frame)
  }

  class Scheduler {
    const sink: Client
    const runtimeEnabled: bool
    var latestVMInfoByID: Inventory
    var lastVMInfoByID: Inventory
    var vmInfoSynced: bool

    constructor (sink: Client, runtimeEnabled: bool)
      requires sink.Valid()
      ensures this.sink == sink && this.runtimeEnabled == runtimeEnabled
      ensures Valid() && State() == Boot(sink.net.mirror)
    {
      this.sink, this.runtimeEnabled := sink, runtimeEnabled;
      latestVMInfoByID, lastVMInfoByID, vmInfoSynced := map[], map[], false;
    }

    ghost predicate Valid()
      reads this, sink, sink.net
    {
      sink.Valid() && WellKeyed(latestVMInfoByID) && WellKeyed(lastVMInfoByID)
    }

    /** The agent and its receiver, with no sync in flight. */
    ghost function State(): World
      reads this, sink.net
    {
      World(latestVMInfoByID, lastVMInfoByID, vmInfoSynced, sink.net.mirror, RIdle, PIdle)
    }

    /** Record the new inventory and say what must be sent for it. */
    method ComputeVMInfoDiff(current: Inventory)
      returns (upserts: seq<VMInfo>, removed: seq<string>, mode: SyncMode, shouldSync: bool)
      requires WellKeyed(current)
      modifies `latestVMInfoByID
      ensures latestVMInfoByID == current
      ensures forall w: World :: old(Matches(w)) && w.runtime.RIdle? ==> Matches(Next(w, RCompute(current)))
      ensures shouldSync <==> !vmInfoSynced || lastVMInfoByID != current
      ensures vmInfoSynced && shouldSync ==>
                IsCanonicalDelta(Frame(mode, "runtime_change", upserts, removed), lastVMInfoByID, current)
      ensures !vmInfoSynced ==>
                && mode.Full? && removed == [] && AscendingBy(upserts, IDOf)
                && forall v :: v in upserts <==> v.vmID in current && current[v.vmID] == v
      ensures shouldSync <==> FrameFor(lastVMInfoByID, vmInfoSynced, current, "runtime_change").Some?
      ensures forall reason | shouldSync && (mode.Full? ==> reason == "agent_boot") ::
                FrameFor(lastVMInfoByID, vmInfoSynced, current, reason) == Some(Frame(mode, reason, upserts, removed))
    {
      latestVMInfoByID := CloneVMInfoMap(current);
      FullCanonical(current, "agent_boot");
      DeltaCanonical(lastVMInfoByID, current, "runtime_change");
      NoFrameIffUnchanged(lastVMInfoByID, vmInfoSynced, current, "runtime_change");
      if !vmInfoSynced {
        upserts := SortedVMInfosByID(current);
        return upserts, [], Full, true;
      }
      upserts := CollectUpserts(lastVMInfoByID, current);
      removed := CollectRemoved(lastVMInfoByID, current);
      EmptyDelta(lastVMInfoByID, current);
      if |upserts| == 0 && |removed| == 0 {
        return [], [], Delta, false;
      }
      return upserts, removed, Delta, true;
    }

    lemma EmptyDelta(last: Inventory, current: Inventory)
      ensures |DeltaFrame(last, current, "").upserts| == 0 <==> Changed(last, current) == {}
      ensures |DeltaFrame(last, current, "").removedVMIDs| == 0 <==> Gone(last, current) == {}
    {
      EmptyListing(Changed(last, current));
      EmptyListing(Gone(last, current));
    }

    lemma EmptyListing(ids: set<string>)
      ensures |SortedIDs(ids)| == 0 <==> ids == {}
    {
      if |SortedIDs(ids)| > 0 {
        assert SortedIDs(ids)[0] in ids;
      }
    }

    // The other three sections that hold the mutex. Each does to the shared variables what its
    // step of SyncProtocol does, wherever the other loop stands.

    ghost predicate Matches(w: World)
      reads this
    {
      w.latest == latestVMInfoByID && w.last == lastVMInfoByID && w.synced == vmInfoSynced
    }

    method CommitRuntime(current: Inventory)
      modifies this
      ensures latestVMInfoByID == lastVMInfoByID == current && vmInfoSynced
      ensures forall w: World :: w.runtime == RAcked(current) ==> Matches(Next(w, RCommit))
    {
      vmInfoSynced := true;
      lastVMInfoByID := CloneVMInfoMap(current);
      latestVMInfoByID := CloneVMInfoMap(current);
    }

    method TakeSnapshot() returns (full: Option<seq<VMInfo>>)
      ensures full == if |latestVMInfoByID| == 0 then None else Some(Listing(latestVMInfoByID))
      ensures forall w: World :: Matches(w) && w.periodic.PIdle? ==>
                Next(w, PSnapshot).periodic == if full == None then PIdle else PSending(latestVMInfoByID)
    {
      if |latestVMInfoByID| == 0 {
        return None;
      }
      var listing := SortedVMInfosByID(latestVMInfoByID);
      full := Some(listing);
    }

    method CommitPeriodic()
      modifies this
      ensures latestVMInfoByID == old(latestVMInfoByID) && vmInfoSynced
      ensures lastVMInfoByID == if latestVMInfoByID == map[] then old(lastVMInfoByID) else latestVMInfoByID
      ensures forall w: World :: old(Matches(w)) && w.periodic.PAcked? ==> Matches(Next(w, PCommit))
    {
      vmInfoSynced := true;
      if |latestVMInfoByID| > 0 {
        lastVMInfoByID := CloneVMInfoMap(latestVMInfoByID);
      }
    }

    /** Hand a frame to the sink; the outcome says what the receiver did with it. */
    method Send(frame: Frame) returns (ok: bool, ghost outcome: Outcome)
      requires Valid()
      modifies sink, sink.net
      ensures Valid()
      ensures ok <==> outcome.Acked?
      ensures !ok && sink.vmInfoMethod != "" ==> sink.Disconnected()
      ensures sink.net.mirror == if outcome.Refused? then old(sink.net.mirror) else Apply(old(sink.net.mirror), frame)
      ensures sink.net.accepted == old(sink.net.accepted)
      ensures OnlySent(old(sink.net.applied), sink.net.applied, frame)
      ensures ok ==> |sink.net.applied| > |old(sink.net.applied)|
      ensures old(sink.net.refusals) <= sink.net.refusals
      ensures !ok && sink.vmInfoMethod != "" ==> sink.net.refusals > old(sink.net.refusals)
    {
      ok := sink.SendVMInfoSync(frame);
      outcome := if ok then Acked else if sink.net.mirror == old(sink.net.mirror) then Refused else AppliedThenErrored;
    }

    /** The frame a runtime sync has to send, if any. */
    method RuntimeFrame(current: Inventory) returns (frame: Option<Frame>)
      requires WellKeyed(current)
      modifies `latestVMInfoByID
      ensures latestVMInfoByID == current
      ensures frame == FrameFor(lastVMInfoByID, vmInfoSynced, current, "runtime_change")
      ensures frame == None <==> vmInfoSynced && lastVMInfoByID == current
      ensures frame.Some? ==> IsRuntimeFrame(frame.value, lastVMInfoByID, vmInfoSynced, current)
    {
      var upserts, removed, mode, shouldSync := ComputeVMInfoDiff(current);
      FrameForExact(lastVMInfoByID, vmInfoSynced, current);
      if !shouldSync {
        return None;
      }
      var reason := if mode.Full? then "agent_boot" else "runtime_change";
      frame := Some(Frame(mode, reason, upserts, removed));
      assert FrameFor(lastVMInfoByID, vmInfoSynced, current, reason) == frame;
    }

    /** One runtime sync: compute, send, and on success commit. */
    method SyncVMInfoFromMap(current: Inventory) returns (ok: bool, ghost outcome: Outcome)
      requires Valid() && WellKeyed(current)
      modifies this, sink, sink.net
      ensures Valid()
      ensures State() == RuntimeOnce(old(State()), current, outcome)
      ensures ok <==> outcome.Acked?
      ensures latestVMInfoByID == current
      ensures if ok then lastVMInfoByID == current && vmInfoSynced
              else lastVMInfoByID == old(lastVMInfoByID) && vmInfoSynced == old(vmInfoSynced)
      ensures old(sink.net.applied) <= sink.net.applied
      ensures forall i :: |old(sink.net.applied)| <= i < |sink.net.applied| ==>
                && sink.net.applied[i].InfoSync?
                && IsRuntimeFrame(sink.net.applied[i].frame, old(lastVMInfoByID), old(vmInfoSynced), current)
      ensures if old(vmInfoSynced) && old(lastVMInfoByID) == current
              then ok && sink.net.applied == old(sink.net.applied)
              else ok ==> |sink.net.applied| > |old(sink.net.applied)|
      ensures !ok && sink.vmInfoMethod != "" ==> sink.Disconnected() && sink.net.refusals > old(sink.net.refusals)
      ensures sink.net.refusals >= old(sink.net.refusals)
      ensures sink.net.accepted == old(sink.net.accepted)
    {
      var frame := RuntimeFrame(current);
      if frame == None {
        RuntimeOnceIs(old(State()), current, Acked);
        return true, Acked;
      }
      ok, outcome := Send(frame.value);
      if ok {
        CommitRuntime(current);
      }
      RuntimeOnceIs(old(State()), current, outcome);
    }

    /** One periodic sync: snapshot, send in full, and on success commit. */
    method SyncVMInfoPeriodic() returns (ok: bool, ghost outcome: Outcome)
      requires Valid()
      modifies this, sink, sink.net
      ensures Valid()
      ensures State() == PeriodicOnce(old(State()), outcome)
      ensures ok <==> outcome.Acked?
      ensures latestVMInfoByID == old(latestVMInfoByID)
      ensures if ok && latestVMInfoByID != map[] then lastVMInfoByID == latestVMInfoByID && vmInfoSynced
              else lastVMInfoByID == old(lastVMInfoByID) && vmInfoSynced == old(vmInfoSynced)
      ensures old(sink.net.applied) <= sink.net.applied
      ensures forall i :: |old(sink.net.applied)| <= i < |sink.net.applied| ==>
                && sink.net.applied[i].InfoSync?
                && IsCanonicalFull(sink.net.applied[i].frame, latestVMInfoByID)
                && sink.net.applied[i].frame.reason == "periodic_sync"
      ensures if latestVMInfoByID == map[] then ok && sink.net.applied == old(sink.net.applied)
              else ok ==> |sink.net.applied| > |old(sink.net.applied)|
      ensures !ok && sink.vmInfoMethod != "" ==> sink.Disconnected() && sink.net.refusals > old(sink.net.refusals)
    {
      var full := TakeSnapshot();
      if full == None {
        PeriodicOnceIs(old(State()), Acked);
        return true, Acked;
      }
      FullCanonical(latestVMInfoByID, "periodic_sync");
      ok, outcome := Send(Frame(Full, "periodic_sync", full.value, []));
      if ok {
        CommitPeriodic();
      }
      PeriodicOnceIs(old(State()), outcome);
    }

    /**
     One cycle of the lite loop, given what was collected. It touches the inventory only
     when the runtime loop is off, so at most one loop ever computes, and then only after its
     metrics were accepted or when there are none.
     */
    method CollectAndSendVM(collected: Result<seq<VMLiteMetrics>>, msg: string)
      returns (ok: bool, ghost current: Inventory, ghost outcome: Outcome)
      requires Valid()
      modifies this, sink, sink.net
      ensures Valid()
      ensures var sent := collected.Ok? && (|collected.value| == 0 || sink.net.accepted != old(sink.net.accepted));
              if !sent then !ok && State() == old(State())
              else if runtimeEnabled then ok && State() == old(State())
              else
                && WellKeyed(current) && IsInventoryOf(current, LiteInfos(collected.value))
                && State() == RuntimeOnce(old(State()), current, outcome) && (ok <==> outcome.Acked?)
      ensures sink.net.accepted == old(sink.net.accepted)
              || sink.net.accepted == old(sink.net.accepted) + [(VMMetrics, msg)]
      ensures collected.Ok? && !ok && sink.vmInfoMethod != "" ==> sink.net.refusals > old(sink.net.refusals)
    {
      current, outcome := map[], Refused;
      if collected.Err? {
        return false, current, outcome;
      }
      var metrics := collected.value;
      if |metrics| == 0 {
        ok := true;
        if !runtimeEnabled {
          ok, outcome := SyncVMInfoFromMap(map[]);
        }
        return;
      }
      ok := sink.SendVMMetrics(|metrics|, msg);
      if ok && !runtimeEnabled {
        var built := BuildVMInfoMapFromLite(metrics);
        InventoryOfList(built, LiteInfos(metrics));
        current := built;
        ok, outcome := SyncVMInfoFromMap(built);
      }
    }

    /**
     One cycle of the runtime loop, given what was collected. Without a configured stream its
     metrics count as sent.
     */
    method CollectAndSendVMRuntime(collected: Result<seq<VMRuntimeMetrics>>, msg: string)
      returns (ok: bool, ghost current: Inventory, ghost outcome: Outcome)
      requires Valid() && runtimeEnabled
      modifies this, sink, sink.net
      ensures Valid()
      ensures var sent := collected.Ok? && (|collected.value| == 0 || sink.vmRuntimeMethod == ""
                                            || sink.net.accepted != old(sink.net.accepted));
              if !sent then !ok && State() == old(State())
              else
                && WellKeyed(current) && IsInventoryOf(current, RuntimeInfos(collected.value))
                && State() == RuntimeOnce(old(State()), current, outcome) && (ok <==> outcome.Acked?)
      ensures sink.net.accepted == old(sink.net.accepted)
              || sink.net.accepted == old(sink.net.accepted) + [(VMRuntime, msg)]
      ensures collected.Ok? && !ok && sink.vmInfoMethod != "" ==> sink.net.refusals > old(sink.net.refusals)
    {
      current, outcome := map[], Refused;
      if collected.Err? {
        return false, current, outcome;
      }
      var metrics := collected.value;
      if |metrics| == 0 {
        ok, outcome := SyncVMInfoFromMap(map[]);
        return;
      }
      ok := sink.SendVMRuntimeMetrics(|metrics|, msg);
      if ok {
        var built := BuildVMInfoMapFromRuntime(metrics);
        InventoryOfList(built, RuntimeInfos(metrics));
        current := built;
        ok, outcome := SyncVMInfoFromMap(built);
      }
    }
  }
}
