/**
 The frames computeVMInfoDiff makes (internal/collector/scheduler.go): their
 canonical form, and what they do to a mirror that may have drifted.
 */
module SyncFrames {
  import opened Wrappers
  import opened IDOrder
  import opened VMInfoSync

  ghost function Changed(last: Inventory, current: Inventory): set<string> {
    set id | id in current && Get(last, id) != Get(current, id)
  }

  ghost function Gone(last: Inventory, current: Inventory): set<string> {
    set id | id in last && id !in current
  }

  /** The ids a delta from last to current names. */
  ghost function Named(last: Inventory, current: Inventory): set<string> {
    Changed(last, current) + Gone(last, current)
  }

  /** The ids on which two inventories disagree, absence included. */
  ghost function Drift(mirror: Inventory, last: Inventory): set<string> {
    set id | id in mirror.Keys + last.Keys && Get(mirror, id) != Get(last, id)
  }

  lemma DriftMembers(mirror: Inventory, last: Inventory)
    ensures forall id :: id in Drift(mirror, last) <==> Get(mirror, id) != Get(last, id)
    ensures Drift(mirror, last) == {} <==> mirror == last
  {
    if Drift(mirror, last) == {} {
      forall id
        ensures Get(mirror, id) == Get(last, id)
      {
        assert id !in Drift(mirror, last);
      }
      SameLookups(mirror, last);
    }
  }

  lemma NamedIsDrift(last: Inventory, current: Inventory)
    ensures Named(last, current) == Drift(last, current)
  {
  }

  ghost function FullFrame(current: Inventory, reason: string): Frame {
    Frame(Full, reason, Listing(current), [])
  }

  ghost function DeltaFrame(last: Inventory, current: Inventory, reason: string): Frame {
    Frame(Delta, reason, Entries(current, SortedIDs(Changed(last, current))), SortedIDs(Gone(last, current)))
  }

  /**
   The frame of one collected inventory: full until some frame was acknowledged,
   after that a delta against the last acknowledged one, or none without a change.
   */
  ghost function FrameFor(last: Inventory, synced: bool, current: Inventory, reason: string): Option<Frame> {
    if !synced then Some(FullFrame(current, "agent_boot"))
    else if Changed(last, current) == {} && Gone(last, current) == {} then None
    else Some(DeltaFrame(last, current, reason))
  }

  /** A full frame leaves exactly its inventory, whatever the mirror held. */
  lemma FullFrameReplaces(mirror: Inventory, current: Inventory, reason: string)
    requires WellKeyed(current)
    ensures Apply(mirror, FullFrame(current, reason)) == current
  {
    ListingRoundTrip(current);
  }

  /** A delta sets the ids it names to their new entries and touches no other. */
  lemma DeltaLookup(mirror: Inventory, last: Inventory, current: Inventory, reason: string, id: string)
    requires WellKeyed(current)
    ensures Get(Apply(mirror, DeltaFrame(last, current, reason)), id) ==
            if id in Named(last, current) then Get(current, id) else Get(mirror, id)
  {
    var f := DeltaFrame(last, current, reason);
    ApplyLookup(mirror, f, id);
    EntriesLookup(current, SortedIDs(Changed(last, current)), id, Get(mirror, id));
  }

  /**
   Exactly when a delta from last to current brings a mirror to current: the
   mirror already has current's entry wherever last and current agree.
   */
  lemma DeltaReachesCurrent(mirror: Inventory, last: Inventory, current: Inventory, reason: string)
    requires WellKeyed(current)
    ensures Apply(mirror, DeltaFrame(last, current, reason)) == current
            <==> forall id :: Get(last, id) == Get(current, id) ==> Get(mirror, id) == Get(current, id)
  {
    var after := Apply(mirror, DeltaFrame(last, current, reason));
    NamedIsDrift(last, current);
    DriftMembers(last, current);
    forall id
      ensures Get(after, id) == if Get(last, id) == Get(current, id) then Get(mirror, id) else Get(current, id)
    {
      DeltaLookup(mirror, last, current, reason, id);
    }
    if forall id :: Get(last, id) == Get(current, id) ==> Get(mirror, id) == Get(current, id) {
      SameLookups(after, current);
    }
  }

  /**
   Interpolation: a mirror each of whose ids agrees with last or with current,
   absence included, ends up as exactly current.
   */
  lemma DeltaInterpolates(mirror: Inventory, last: Inventory, current: Inventory, reason: string)
    requires WellKeyed(current)
    requires forall id :: Get(mirror, id) == Get(last, id) || Get(mirror, id) == Get(current, id)
    ensures Apply(mirror, DeltaFrame(last, current, reason)) == current
  {
    DeltaReachesCurrent(mirror, last, current, reason);
  }

  /** No delta at all brings last to current without naming every id this one names. */
  lemma DeltaMinimal(last: Inventory, current: Inventory, f: Frame)
    requires f.mode.Delta? && Apply(last, f) == current
    ensures forall id :: id in Named(last, current)
                         ==> id in f.removedVMIDs || Lists(f.upserts, id)
  {
    forall id | id in Named(last, current) && id !in f.removedVMIDs
      ensures Lists(f.upserts, id)
    {
      ApplyLookup(last, f, id);
      UnlistedKept(f.upserts, id, Get(last, id));
    }
  }

  ghost predicate Lists(infos: seq<VMInfo>, id: string) {
    exists v :: v in infos && v.vmID == id
  }

  lemma {:induction false} UnlistedKept(infos: seq<VMInfo>, id: string, before: Option<VMInfo>)
    ensures LastListed(infos, id, before) == before || Lists(infos, id)
  {
    if infos != [] {
      if infos[|infos| - 1].vmID != id {
        UnlistedKept(infos[..|infos| - 1], id, before);
      }
    }
  }

  /** The shape of a delta frame: ascending, disjoint, and nothing but the change. */
  ghost predicate IsCanonicalDelta(f: Frame, last: Inventory, current: Inventory) {
    && f.mode.Delta?
    && AscendingBy(f.upserts, IDOf)
    && Ascending(f.removedVMIDs)
    && (forall v :: v in f.upserts <==> v.vmID in current && current[v.vmID] == v && Get(last, v.vmID) != Some(v))
    && (forall id :: id in f.removedVMIDs <==> id in last && id !in current)
    && (forall i :: 0 <= i < |f.upserts| ==> f.upserts[i].vmID !in f.removedVMIDs)
  }

  /** The delta frame is canonical, and it is the only canonical frame of its two inventories. */
  lemma DeltaCanonical(last: Inventory, current: Inventory, reason: string)
    requires WellKeyed(current)
    ensures IsCanonicalDelta(DeltaFrame(last, current, reason), last, current)
    ensures forall f :: IsCanonicalDelta(f, last, current) && f.reason == reason
                        ==> f == DeltaFrame(last, current, reason)
  {
    var d := DeltaFrame(last, current, reason);
    var ids := SortedIDs(Changed(last, current));
    forall i | 0 <= i < |ids|
      ensures d.upserts[i].vmID == ids[i]
    {
      assert ids[i] in ids;
    }
    forall v
      ensures v in d.upserts <==> v.vmID in current && current[v.vmID] == v && Get(last, v.vmID) != Some(v)
    {
      if v in d.upserts {
        var i :| 0 <= i < |ids| && d.upserts[i] == v;
        assert ids[i] in ids;
      }
      if v.vmID in current && current[v.vmID] == v && Get(last, v.vmID) != Some(v) {
        assert v.vmID in Changed(last, current) && v.vmID in ids;
        var i :| 0 <= i < |ids| && ids[i] == v.vmID;
        assert d.upserts[i] == current[v.vmID];
      }
    }
    forall f | IsCanonicalDelta(f, last, current) && f.reason == reason
      ensures f == d
    {
      SortedIDsUnique(f.removedVMIDs, Gone(last, current));
      AscendingEntries(f.upserts, current, Changed(last, current));
    }
  }

  /** The shape of a full frame: ascending, and all of its inventory. */
  ghost predicate IsCanonicalFull(f: Frame, current: Inventory) {
    && f.mode.Full?
    && AscendingBy(f.upserts, IDOf)
    && (forall v :: v in f.upserts <==> v.vmID in current && current[v.vmID] == v)
    && f.removedVMIDs == []
  }

  lemma FullCanonical(current: Inventory, reason: string)
    requires WellKeyed(current)
    ensures IsCanonicalFull(FullFrame(current, reason), current)
  {
    ListingCanonical(current);
  }

  /** The frame a runtime sync has to send, said without saying how it is made. */
  ghost predicate IsRuntimeFrame(f: Frame, last: Inventory, synced: bool, current: Inventory) {
    if synced then IsCanonicalDelta(f, last, current) && f.reason == "runtime_change"
    else IsCanonicalFull(f, current) && f.reason == "agent_boot"
  }

  /** Full and marked as boot until a frame was acknowledged, afterwards the delta against the last one, if any. */
  lemma FrameForExact(last: Inventory, synced: bool, current: Inventory)
    requires WellKeyed(current)
    ensures var frame := FrameFor(last, synced, current, "runtime_change");
            && (frame.Some? <==> !synced || last != current)
            && (frame.Some? ==> IsRuntimeFrame(frame.value, last, synced, current))
  {
    NoFrameIffUnchanged(last, synced, current, "runtime_change");
    DeltaCanonical(last, current, "runtime_change");
    FullCanonical(current, "agent_boot");
  }

  /** The ids a frame mentions. */
  ghost function FrameIDs(f: Frame): set<string> {
    (set v | v in f.upserts :: v.vmID) + (set id | id in f.removedVMIDs)
  }

  lemma DeltaFrameIDs(last: Inventory, current: Inventory, reason: string)
    requires WellKeyed(current)
    ensures FrameIDs(DeltaFrame(last, current, reason)) == Named(last, current)
  {
    var d := DeltaFrame(last, current, reason);
    DeltaCanonical(last, current, reason);
    forall id | id in Changed(last, current)
      ensures id in FrameIDs(d)
    {
      assert current[id] in d.upserts;
    }
  }

  lemma AscendingEntries(infos: seq<VMInfo>, current: Inventory, ids: set<string>)
    requires WellKeyed(current) && ids <= current.Keys
    requires AscendingBy(infos, IDOf)
    requires forall v :: v in infos <==> v.vmID in ids && current[v.vmID] == v
    ensures infos == Entries(current, SortedIDs(ids))
  {
    var names := seq(|infos|, i requires 0 <= i < |infos| => infos[i].vmID);
    forall id
      ensures id in names <==> id in ids
    {
      if id in names {
        var i :| 0 <= i < |names| && names[i] == id;
        assert infos[i] in infos;
      }
      if id in ids {
        var i :| 0 <= i < |infos| && infos[i] == current[id];
        assert names[i] == id;
      }
    }
    SortedIDsUnique(names, ids);
    forall i | 0 <= i < |infos|
      ensures infos[i] == current[names[i]]
    {
      assert infos[i] in infos;
    }
  }

  /** There is no frame exactly when one was acknowledged and the inventories are equal. */
  lemma NoFrameIffUnchanged(last: Inventory, synced: bool, current: Inventory, reason: string)
    ensures FrameFor(last, synced, current, reason) == None <==> synced && last == current
  {
    DriftMembers(last, current);
    NamedIsDrift(last, current);
  }

  // ---------------------------------------------------------------------------
  // Drift: the exact effect of one send on the set of disagreeing ids
  // ---------------------------------------------------------------------------

  /** An acknowledged delta repairs exactly the ids it names. */
  lemma AckedDeltaDrift(mirror: Inventory, last: Inventory, current: Inventory, reason: string)
    requires WellKeyed(current)
    ensures Drift(Apply(mirror, DeltaFrame(last, current, reason)), current)
            == Drift(mirror, last) - Named(last, current)
  {
    var after := Apply(mirror, DeltaFrame(last, current, reason));
    DriftMembers(after, current);
    DriftMembers(mirror, last);
    DriftMembers(last, current);
    NamedIsDrift(last, current);
    forall id
      ensures id in Drift(after, current) <==> id in Drift(mirror, last) - Named(last, current)
    {
      DeltaLookup(mirror, last, current, reason, id);
    }
  }

  /** A delta that was applied but reported as failed makes exactly the ids it names disagree. */
  lemma ErroredDeltaDrift(mirror: Inventory, last: Inventory, current: Inventory, reason: string)
    requires WellKeyed(current)
    ensures Drift(Apply(mirror, DeltaFrame(last, current, reason)), last)
            == Drift(mirror, last) + Named(last, current)
  {
    var after := Apply(mirror, DeltaFrame(last, current, reason));
    DriftMembers(after, last);
    DriftMembers(mirror, last);
    DriftMembers(last, current);
    NamedIsDrift(last, current);
    forall id
      ensures id in Drift(after, last) <==> id in Drift(mirror, last) + Named(last, current)
    {
      DeltaLookup(mirror, last, current, reason, id);
    }
  }

  /** An acknowledged full frame removes every disagreement. */
  lemma AckedFullDrift(mirror: Inventory, current: Inventory, reason: string)
    requires WellKeyed(current)
    ensures Drift(Apply(mirror, FullFrame(current, reason)), current) == {}
  {
    FullFrameReplaces(mirror, current, reason);
    DriftMembers(current, current);
  }
}
