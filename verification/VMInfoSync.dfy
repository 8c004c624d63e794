/**
 The VM inventory (internal/model/vm_info_sync.go) and the sync frames the agent
 sends (proto/vm/vm_info.proto): what a frame does to the receiver's mirror, and
 the canonical frames that carry one inventory to another.
 */
module VMInfoSync {
  import opened Wrappers
  import opened IDOrder

  datatype VMInfo = VMInfo(
    nodeID: string,
    vmID: string,
    vmName: string,
    state: string,
    vcpuCount: u64,
    ramTotalBytes: u64,
    diskCount: u64,
    gpuCount: u64
  )

  type Inventory = map<string, VMInfo>

  /** Every entry is filed under its own, non-empty id. */
  ghost predicate WellKeyed(m: Inventory) {
    forall id :: id in m ==> id != "" && m[id].vmID == id
  }

  function Get(m: Inventory, id: string): Option<VMInfo> {
    if id in m then Some(m[id]) else None
  }

  lemma SameLookups(a: Inventory, b: Inventory)
    requires forall id :: Get(a, id) == Get(b, id)
    ensures a == b
  {
    forall id
      ensures id in a <==> id in b
      ensures id in a ==> a[id] == b[id]
    {
      assert Get(a, id) == Get(b, id);
    }
  }

  // ---------------------------------------------------------------------------
  // Building the inventory from collected metrics
  // ---------------------------------------------------------------------------

  /** The fields of a lite metric that reach the inventory. */
  datatype VMLiteMetrics = VMLiteMetrics(
    nodeID: string,
    vmID: string,
    vmName: string,
    state: string,
    vcpuCount: u64,
    ramTotalBytes: u64
  )

  /** The fields of a runtime metric that reach the inventory. */
  datatype VMRuntimeMetrics = VMRuntimeMetrics(
    nodeID: string,
    vmID: string,
    vmName: string,
    vmState: string,
    vcpuCount: u64,
    ramTotalBytes: u64,
    disks: seq<string>,
    gpuCount: u64
  )

  function BuildVMInfoFromLiteMetric(m: VMLiteMetrics): VMInfo {
    VMInfo(m.nodeID, m.vmID, m.vmName, m.state, m.vcpuCount, m.ramTotalBytes, 0, 0)
  }

  function BuildVMInfoFromRuntimeMetric(m: VMRuntimeMetrics): VMInfo {
    VMInfo(m.nodeID, m.vmID, m.vmName, m.vmState, m.vcpuCount, m.ramTotalBytes,
           |m.disks| % TWO_64, m.gpuCount)
  }

  /** The entry an id ends up with: the last one listed, or what was there before. */
  function LastListed(infos: seq<VMInfo>, id: string, before: Option<VMInfo>): Option<VMInfo> {
    if infos == [] then before
    else if infos[|infos| - 1].vmID == id then Some(infos[|infos| - 1])
    else LastListed(infos[..|infos| - 1], id, before)
  }

  /** The inventory that files each entry with a non-empty id, later ones winning. */
  ghost predicate IsInventoryOf(m: Inventory, infos: seq<VMInfo>) {
    && "" !in m
    && forall id :: id != "" ==> Get(m, id) == LastListed(infos, id, None)
  }

  lemma {:induction false} ListedUnderOwnID(infos: seq<VMInfo>, id: string)
    ensures LastListed(infos, id, None).Some? ==> LastListed(infos, id, None).value.vmID == id
    ensures LastListed(infos, id, None).Some? ==> LastListed(infos, id, None).value in infos
  {
    if infos != [] && infos[|infos| - 1].vmID != id {
      ListedUnderOwnID(infos[..|infos| - 1], id);
    }
  }

  /**
   The inventory of a list is well keyed and unique; it holds exactly the
   non-empty ids listed, each with its last entry.
   */
  lemma InventoryOfList(m: Inventory, infos: seq<VMInfo>)
    requires IsInventoryOf(m, infos)
    ensures WellKeyed(m)
    ensures forall other :: IsInventoryOf(other, infos) ==> other == m
    ensures forall i :: 0 <= i < |infos| && infos[i].vmID != "" ==> infos[i].vmID in m
    ensures forall i :: 0 <= i < |infos| && infos[i].vmID != "" &&
                        (forall j :: i < j < |infos| ==> infos[j].vmID != infos[i].vmID)
                        ==> Get(m, infos[i].vmID) == Some(infos[i])
    ensures forall id :: id in m ==> m[id] in infos
  {
    forall id | id in m
      ensures id != "" && m[id].vmID == id && m[id] in infos
    {
      assert Get(m, id) == LastListed(infos, id, None);
      ListedUnderOwnID(infos, id);
    }
    forall other | IsInventoryOf(other, infos)
      ensures other == m
    {
      forall id
        ensures Get(m, id) == Get(other, id)
      {
      }
      SameLookups(m, other);
    }
    forall i | 0 <= i < |infos| && infos[i].vmID != ""
      ensures infos[i].vmID in m
      ensures (forall j :: i < j < |infos| ==> infos[j].vmID != infos[i].vmID)
              ==> Get(m, infos[i].vmID) == Some(infos[i])
    {
      LastOccurrence(infos, i);
      assert Get(m, infos[i].vmID) == LastListed(infos, infos[i].vmID, None);
    }
  }

  lemma {:induction false} LastOccurrence(infos: seq<VMInfo>, i: nat)
    requires i < |infos|
    ensures LastListed(infos, infos[i].vmID, None).Some?
    ensures (forall j :: i < j < |infos| ==> infos[j].vmID != infos[i].vmID)
            ==> LastListed(infos, infos[i].vmID, None) == Some(infos[i])
  {
    if i < |infos| - 1 {
      LastOccurrence(infos[..|infos| - 1], i);
    }
  }

  function LiteInfos(metrics: seq<VMLiteMetrics>): seq<VMInfo> {
    seq(|metrics|, i requires 0 <= i < |metrics| => BuildVMInfoFromLiteMetric(metrics[i]))
  }

  function RuntimeInfos(metrics: seq<VMRuntimeMetrics>): seq<VMInfo> {
    seq(|metrics|, i requires 0 <= i < |metrics| => BuildVMInfoFromRuntimeMetric(metrics[i]))
  }

  /** The last metric listed under an id. */
  ghost predicate LastOf<T(!new)>(metrics: seq<T>, idOf: T -> string, i: int) {
    0 <= i < |metrics| && forall j :: i < j < |metrics| ==> idOf(metrics[j]) != idOf(metrics[i])
  }

  /** What an entry says of a lite metric; disks and GPUs are not known. */
  predicate DescribesLite(v: VMInfo, m: VMLiteMetrics) {
    && v.nodeID == m.nodeID && v.vmID == m.vmID && v.vmName == m.vmName && v.state == m.state
    && v.vcpuCount == m.vcpuCount && v.ramTotalBytes == m.ramTotalBytes && v.diskCount == 0 && v.gpuCount == 0
  }

  predicate DescribesRuntime(v: VMInfo, m: VMRuntimeMetrics) {
    && v.nodeID == m.nodeID && v.vmID == m.vmID && v.vmName == m.vmName && v.state == m.vmState
    && v.vcpuCount == m.vcpuCount && v.ramTotalBytes == m.ramTotalBytes
    && v.diskCount == |m.disks| % TWO_64 && v.gpuCount == m.gpuCount
  }

  /** The map describes the last metric of every non-empty id, and no others. */
  ghost predicate LiteInventory(out: Inventory, metrics: seq<VMLiteMetrics>) {
    && (forall i :: LastOf(metrics, (m: VMLiteMetrics) => m.vmID, i) && metrics[i].vmID != "" ==>
          metrics[i].vmID in out && DescribesLite(out[metrics[i].vmID], metrics[i]))
    && (forall id :: id in out ==> id != "" && exists i :: 0 <= i < |metrics| && metrics[i].vmID == id)
  }

  lemma LiteEntries(metrics: seq<VMLiteMetrics>, out: Inventory)
    requires IsInventoryOf(out, LiteInfos(metrics))
    ensures LiteInventory(out, metrics)
  {
    var infos := LiteInfos(metrics);
    InventoryOfList(out, infos);
    forall i | LastOf(metrics, (m: VMLiteMetrics) => m.vmID, i) && metrics[i].vmID != ""
      ensures metrics[i].vmID in out && DescribesLite(out[metrics[i].vmID], metrics[i])
    {
      assert infos[i].vmID == metrics[i].vmID;
      assert forall j :: i < j < |infos| ==> infos[j].vmID == metrics[j].vmID;
      assert Get(out, infos[i].vmID) == Some(infos[i]);
    }
    forall id | id in out
      ensures exists i :: 0 <= i < |metrics| && metrics[i].vmID == id
    {
      var i :| 0 <= i < |infos| && infos[i] == out[id];
      assert metrics[i].vmID == id;
    }
  }

  /** The map describes the last metric of every non-empty id, and no others. */
  ghost predicate RuntimeInventory(out: Inventory, metrics: seq<VMRuntimeMetrics>) {
    && (forall i :: LastOf(metrics, (m: VMRuntimeMetrics) => m.vmID, i) && metrics[i].vmID != "" ==>
          metrics[i].vmID in out && DescribesRuntime(out[metrics[i].vmID], metrics[i]))
    && (forall id :: id in out ==> id != "" && exists i :: 0 <= i < |metrics| && metrics[i].vmID == id)
  }

  lemma RuntimeEntries(metrics: seq<VMRuntimeMetrics>, out: Inventory)
    requires IsInventoryOf(out, RuntimeInfos(metrics))
    ensures RuntimeInventory(out, metrics)
  {
    var infos := RuntimeInfos(metrics);
    InventoryOfList(out, infos);
    forall i | LastOf(metrics, (m: VMRuntimeMetrics) => m.vmID, i) && metrics[i].vmID != ""
      ensures metrics[i].vmID in out && DescribesRuntime(out[metrics[i].vmID], metrics[i])
    {
      assert infos[i].vmID == metrics[i].vmID;
      assert forall j :: i < j < |infos| ==> infos[j].vmID == metrics[j].vmID;
      assert Get(out, infos[i].vmID) == Some(infos[i]);
    }
    forall id | id in out
      ensures exists i :: 0 <= i < |metrics| && metrics[i].vmID == id
    {
      var i :| 0 <= i < |infos| && infos[i] == out[id];
      assert metrics[i].vmID == id;
    }
  }

  method BuildVMInfoMapFromLite(metrics: seq<VMLiteMetrics>) returns (out: Inventory)
    ensures IsInventoryOf(out, LiteInfos(metrics))
    ensures LiteInventory(out, metrics)
  {
    ghost var infos := LiteInfos(metrics);
    out := map[];
    for i := 0 to |metrics|
      invariant IsInventoryOf(out, infos[..i])
    {
      assert infos[..i + 1][..i] == infos[..i];
      if metrics[i].vmID != "" {
        out := out[metrics[i].vmID := BuildVMInfoFromLiteMetric(metrics[i])];
      }
    }
    assert infos[..|metrics|] == infos;
    LiteEntries(metrics, out);
  }

  method BuildVMInfoMapFromRuntime(metrics: seq<VMRuntimeMetrics>) returns (out: Inventory)
    ensures IsInventoryOf(out, RuntimeInfos(metrics))
    ensures RuntimeInventory(out, metrics)
  {
    ghost var infos := RuntimeInfos(metrics);
    out := map[];
    for i := 0 to |metrics|
      invariant IsInventoryOf(out, infos[..i])
    {
      assert infos[..i + 1][..i] == infos[..i];
      if metrics[i].vmID != "" {
        out := out[metrics[i].vmID := BuildVMInfoFromRuntimeMetric(metrics[i])];
      }
    }
    assert infos[..|metrics|] == infos;
    RuntimeEntries(metrics, out);
  }

  // ---------------------------------------------------------------------------
  // Canonical listings
  // ---------------------------------------------------------------------------

  /** The entries of an inventory in the order of a list of its ids. */
  ghost function Entries(m: Inventory, ids: seq<string>): (r: seq<VMInfo>)
    requires forall id :: id in ids ==> id in m
    ensures |r| == |ids|
  {
    seq(|ids|, i requires 0 <= i < |ids| => m[ids[i]])
  }

  /** The whole inventory, ascending by id. */
  ghost function Listing(m: Inventory): (r: seq<VMInfo>)
    ensures |r| == |SortedIDs(m.Keys)|
  {
    Entries(m, SortedIDs(m.Keys))
  }

  function Itself(id: string): string {
    id
  }

  function IDOf(v: VMInfo): string {
    v.vmID
  }

  /** The listing of an inventory is ascending and holds exactly its entries. */
  lemma ListingCanonical(m: Inventory)
    requires WellKeyed(m)
    ensures AscendingBy(Listing(m), IDOf)
    ensures forall v :: v in Listing(m) <==> v.vmID in m && m[v.vmID] == v
  {
    var ids, listing := SortedIDs(m.Keys), Listing(m);
    forall i | 0 <= i < |ids|
      ensures listing[i].vmID == ids[i]
    {
      assert ids[i] in ids;
    }
    forall v
      ensures v in listing <==> v.vmID in m && m[v.vmID] == v
    {
      if v in listing {
        var i :| 0 <= i < |ids| && listing[i] == v;
        assert ids[i] in ids;
      }
      if v.vmID in m && m[v.vmID] == v {
        assert v.vmID in ids;
        var i :| 0 <= i < |ids| && ids[i] == v.vmID;
        assert listing[i] == m[v.vmID];
      }
    }
  }

  /** Map iteration visits the keys in no particular order. */
  method KeysInSomeOrder(m: Inventory) returns (ids: seq<string>)
    ensures forall id :: id in ids <==> id in m
    ensures DistinctBy(ids, Itself)
  {
    ids := [];
    var todo := m.Keys;
    while todo != {}
      invariant todo <= m.Keys
      invariant forall id :: id in ids <==> id in m && id !in todo
      invariant DistinctBy(ids, Itself)
    {
      var id :| id in todo;
      ids := ids + [id];
      todo := todo - {id};
    }
  }

  method SortStrings(ids: seq<string>) returns (r: seq<string>)
    ensures forall id :: id in r <==> id in ids
    ensures DistinctBy(ids, Itself) ==> Ascending(r)
  {
    r := SortBy(ids, Itself);
    SameElements(r, ids);
  }

  /** The listing does not depend on the order in which the map is iterated. */
  method SortedVMInfosByID(m: Inventory) returns (out: seq<VMInfo>)
    ensures out == Listing(m)
    ensures WellKeyed(m) ==> AscendingBy(out, IDOf) && forall v :: v in out <==> v.vmID in m && m[v.vmID] == v
  {
    if WellKeyed(m) {
      ListingCanonical(m);
    }
    if |m| == 0 {
      assert m == map[];
      return [];
    }
    var ids := KeysInSomeOrder(m);
    var sorted := SortStrings(ids);
    SortedIDsUnique(sorted, m.Keys);
    out := EntriesInOrder(m, sorted);
  }

  method EntriesInOrder(m: Inventory, ids: seq<string>) returns (out: seq<VMInfo>)
    requires forall id :: id in ids ==> id in m
    ensures out == Entries(m, ids)
  {
    out := [];
    for i := 0 to |ids|
      invariant |out| == i
      invariant forall j :: 0 <= j < i ==> out[j] == m[ids[j]]
    {
      out := out + [m[ids[i]]];
    }
  }

  // ---------------------------------------------------------------------------
  // Frames and the receiver's mirror
  // ---------------------------------------------------------------------------

  datatype SyncMode = Full | Delta

  datatype Frame = Frame(mode: SyncMode, reason: string, upserts: seq<VMInfo>, removedVMIDs: seq<string>)

  /** File every entry under its id, later ones winning. */
  function PutAll(m: Inventory, infos: seq<VMInfo>): Inventory {
    if infos == [] then m
    else PutAll(m, infos[..|infos| - 1])[infos[|infos| - 1].vmID := infos[|infos| - 1]]
  }

  /** What a frame means to the receiver: full replaces, delta upserts and removes. */
  function Apply(mirror: Inventory, f: Frame): Inventory {
    match f.mode
    case Full => PutAll(map[], f.upserts)
    case Delta => PutAll(mirror, f.upserts) - (set id | id in f.removedVMIDs)
  }

  /** Applying a whole log of frames. */
  function Replay(mirror: Inventory, log: seq<Frame>): Inventory {
    if log == [] then mirror
    else Apply(Replay(mirror, log[..|log| - 1]), log[|log| - 1])
  }

  lemma {:induction false} PutAllLookup(m: Inventory, infos: seq<VMInfo>, id: string)
    ensures Get(PutAll(m, infos), id) == LastListed(infos, id, Get(m, id))
  {
    if infos != [] {
      PutAllLookup(m, infos[..|infos| - 1], id);
    }
  }

  lemma ApplyLookup(mirror: Inventory, f: Frame, id: string)
    ensures Get(Apply(mirror, f), id) ==
            if f.mode.Full? then LastListed(f.upserts, id, None)
            else if id in f.removedVMIDs then None
            else LastListed(f.upserts, id, Get(mirror, id))
  {
    PutAllLookup(if f.mode.Full? then map[] else mirror, f.upserts, id);
  }

  lemma {:induction false} LastListedTwice(infos: seq<VMInfo>, id: string, before: Option<VMInfo>)
    ensures LastListed(infos, id, LastListed(infos, id, before)) == LastListed(infos, id, before)
  {
    if infos != [] && infos[|infos| - 1].vmID != id {
      LastListedTwice(infos[..|infos| - 1], id, before);
      LastListedPastMiss(infos, id, LastListed(infos, id, before));
    }
  }

  lemma LastListedPastMiss(infos: seq<VMInfo>, id: string, before: Option<VMInfo>)
    requires infos != [] && infos[|infos| - 1].vmID != id
    ensures LastListed(infos, id, before) == LastListed(infos[..|infos| - 1], id, before)
  {
  }

  /** Applying any frame a second time changes nothing, whatever the mirror held. */
  lemma ApplyIdempotent(mirror: Inventory, f: Frame)
    ensures Apply(Apply(mirror, f), f) == Apply(mirror, f)
  {
    forall id
      ensures Get(Apply(Apply(mirror, f), f), id) == Get(Apply(mirror, f), id)
    {
      ApplyLookup(mirror, f, id);
      ApplyLookup(Apply(mirror, f), f, id);
      LastListedTwice(f.upserts, id, Get(mirror, id));
    }
    SameLookups(Apply(Apply(mirror, f), f), Apply(mirror, f));
  }

  /** So k copies of a frame, k positive, amount to one. */
  lemma {:induction false} ReplayCopies(mirror: Inventory, f: Frame, k: nat)
    ensures Replay(mirror, seq(k, i => f)) == if k == 0 then mirror else Apply(mirror, f)
  {
    var log := seq(k, i => f);
    if k > 1 {
      assert log[..k - 1] == seq(k - 1, i => f);
      ReplayCopies(mirror, f, k - 1);
      ApplyIdempotent(mirror, f);
    }
  }

  /** Entries listed under distinct ids of an inventory are found again. */
  lemma {:induction false} EntriesLookup(m: Inventory, ids: seq<string>, id: string, before: Option<VMInfo>)
    requires forall x :: x in m ==> m[x].vmID == x
    requires forall x :: x in ids ==> x in m
    ensures LastListed(Entries(m, ids), id, before) == if id in ids then Get(m, id) else before
  {
    if ids != [] {
      var n := |ids| - 1;
      assert Entries(m, ids)[..n] == Entries(m, ids[..n]);
      EntriesLookup(m, ids[..n], id, before);
      assert id in ids <==> id == ids[n] || id in ids[..n];
    }
  }

  /**
   Rebuilding a map from its sorted listing gives the map back exactly when every
   entry is filed under its own id, as in every map the Build functions produce.
   */
  lemma ListingRoundTrip(m: Inventory)
    ensures PutAll(map[], Listing(m)) == m <==> forall id :: id in m ==> m[id].vmID == id
    ensures WellKeyed(m) ==> IsInventoryOf(m, Listing(m))
  {
    var back := PutAll(map[], Listing(m));
    if forall id :: id in m ==> m[id].vmID == id {
      forall id
        ensures Get(back, id) == Get(m, id)
        ensures LastListed(Listing(m), id, None) == Get(m, id)
      {
        PutAllLookup(map[], Listing(m), id);
        ListingLookup(m, id);
      }
      SameLookups(back, m);
    }
    if back == m {
      forall id | id in m
        ensures m[id].vmID == id
      {
        PutAllLookup(map[], Listing(m), id);
        ListedUnderOwnID(Listing(m), id);
      }
    }
  }

  lemma ListingLookup(m: Inventory, id: string)
    requires forall x :: x in m ==> m[x].vmID == x
    ensures LastListed(Listing(m), id, None) == Get(m, id)
  {
    EntriesLookup(m, SortedIDs(m.Keys), id, None);
  }
}
