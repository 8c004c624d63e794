/**
 What the admission of internal/libvirt/vm/control.go is worth: a request is compared with
 wrapping sums over the domains that could be read, and this says exactly when writing an
 admitted one keeps the capacity ledger within the node.
 */
module Admission {
  import opened Wrappers
  import opened Text
  import opened Ledger

  datatype CreateVMSpec = CreateVMSpec(
    name: string, vcpuCount: u32, ramMB: u64, diskSizeGB: u64, diskPath: string,
    autostart: bool, startNow: bool)

  datatype UpdateVMSpec = UpdateVMSpec(name: string, vcpuCount: u32, ramMB: u64, autostart: Option<bool>)

  predicate ValidCreateSpec(spec: CreateVMSpec) {
    TrimSpace(spec.name) != "" && spec.vcpuCount != 0 && spec.ramMB != 0 && spec.diskSizeGB != 0
  }

  /** What is wrong with a create request, the first fault only. */
  function ValidateCreateSpec(spec: CreateVMSpec): (fault: Option<string>)
    ensures fault == None
            <==> TrimSpace(spec.name) != "" && spec.vcpuCount > 0 && spec.ramMB > 0 && spec.diskSizeGB > 0
    ensures fault == Some("vm_name is required") <==> TrimSpace(spec.name) == ""
    ensures fault == Some("vcpu_count must be > 0") <==> TrimSpace(spec.name) != "" && spec.vcpuCount == 0
    ensures fault == Some("ram_mb must be > 0")
            <==> TrimSpace(spec.name) != "" && spec.vcpuCount > 0 && spec.ramMB == 0
  {
    if TrimSpace(spec.name) == "" then Some("vm_name is required")
    else if spec.vcpuCount == 0 then Some("vcpu_count must be > 0")
    else if spec.ramMB == 0 then Some("ram_mb must be > 0")
    else if spec.diskSizeGB == 0 then Some("disk_size_gb must be > 0")
    else None
  }

  /** The domain a create asks for. */
  function Requested(spec: CreateVMSpec): Domain {
    Domain(spec.vcpuCount, Mul64(spec.ramMB, 1024))
  }

  function DesiredVCPU(d: Domain, spec: UpdateVMSpec): u64 {
    if spec.vcpuCount > 0 then spec.vcpuCount else d.vcpu
  }

  function DesiredRAMMB(d: Domain, spec: UpdateVMSpec): u64 {
    if spec.ramMB > 0 then spec.ramMB else d.memKiB / 1024
  }

  // ---------------------------------------------------------------------------
  // Counted and hidden domains
  // ---------------------------------------------------------------------------

  /** The domains whose allocation readAllocatedCapacity adds up, when some could not be read. */
  ghost function Counted(ds: Domains, exclude: string, unread: set<string>): Domains {
    map n | n in ds && n !in unread && !(exclude != "" && TrimSpace(n) == exclude) :: ds[n]
  }

  /** The domains left out of the sums although they are not the one being written. */
  ghost function Hidden(ds: Domains, name: string, exclude: string, unread: set<string>): Domains {
    ds - {name} - Counted(ds, exclude, unread).Keys
  }

  ghost predicate HidesNothing(ds: Domains, name: string, exclude: string, unread: set<string>) {
    var hidden := Hidden(ds, name, exclude, unread);
    Total(hidden, VCPUOf) == 0 && Total(hidden, MemMBOf) == 0
  }

  /** No name is empty or carries outer white space. */
  ghost predicate LegibleNames(ds: Domains) {
    forall n :: n in ds ==> n != "" && Trimmed(n)
  }

  /** Neither a new name nor the excluded one is counted. */
  lemma NeverCounted(ds: Domains, name: string, exclude: string, unread: set<string>)
    requires name !in ds || (exclude == name != "" && Trimmed(name))
    ensures name !in Counted(ds, exclude, unread)
  {
    TrimSpaceTrims(name);
  }

  /** With legible names that could all be read nothing is hidden. */
  lemma LegibleHidesNothing(ds: Domains, name: string, exclude: string)
    requires LegibleNames(ds) && (exclude == "" || exclude == name)
    ensures HidesNothing(ds, name, exclude, {})
  {
    forall n | n in ds
      ensures TrimSpace(n) == n
    {
      TrimSpaceTrims(n);
    }
    assert Hidden(ds, name, exclude, {}) == map[];
  }

  lemma CountedAndHidden(ds: Domains, name: string, exclude: string, unread: set<string>, quantity: Domain -> nat)
    requires name !in Counted(ds, exclude, unread)
    ensures Total(ds - {name}, quantity)
            == Total(Counted(ds, exclude, unread), quantity) + Total(Hidden(ds, name, exclude, unread), quantity)
  {
    var counted, rest := Counted(ds, exclude, unread), ds - {name};
    assert counted == map n | n in rest && n in counted.Keys :: rest[n];
    TotalSplit(rest, counted.Keys, quantity);
  }

  /** The comparisons an admission makes on the domains it counts. */
  ghost predicate AdmittedAmong(ds: Domains, exclude: string, unread: set<string>, vcpu: u64, ramMB: u64, node: Node) {
    var counted := Counted(ds, exclude, unread);
    Admitted(Total(counted, VCPUOf) % TWO_64, Total(counted, MemMBOf) % TWO_64, vcpu, ramMB, node)
  }

  /** With nothing hidden, an admission compares the sums over all other domains. */
  lemma AdmittedOnAll(
    ds: Domains, name: string, exclude: string, unread: set<string>, vcpu: u64, ramMB: u64, node: Node)
    requires name !in Counted(ds, exclude, unread) && HidesNothing(ds, name, exclude, unread)
    requires AdmittedAmong(ds, exclude, unread, vcpu, ramMB, node)
    ensures Admitted(Total(ds - {name}, VCPUOf) % TWO_64, Total(ds - {name}, MemMBOf) % TWO_64, vcpu, ramMB, node)
  {
    CountedAndHidden(ds, name, exclude, unread, VCPUOf);
    CountedAndHidden(ds, name, exclude, unread, MemMBOf);
  }

  // ---------------------------------------------------------------------------
  // Hidden domains
  // ---------------------------------------------------------------------------

  /** Every request that is admitted, without wrapping around, keeps the ledger within the node. */
  ghost predicate AdmissionSound(ds: Domains, name: string, exclude: string, unread: set<string>, node: Node) {
    forall vcpu: u64, ramMB: u64 ::
      AdmittedAmong(ds, exclude, unread, vcpu, ramMB, node) && NoWrap(Counted(ds, exclude, unread), vcpu, ramMB)
      ==> Fits(ds[name := Domain(vcpu, Mul64(ramMB, 1024))], node)
  }

  /**
   Whatever was skipped, unread or sharing the excluded name but for white space: admission is
   sound if and only if the skipped domains hold nothing. For a create name is new and exclude
   empty, for an update they are the same.
   */
  lemma HiddenDomainsExact(ds: Domains, name: string, exclude: string, unread: set<string>, node: Node)
    requires Fits(ds, node) && name !in Counted(ds, exclude, unread)
    ensures AdmissionSound(ds, name, exclude, unread, node) <==> HidesNothing(ds, name, exclude, unread)
  {
    RemovalFits(ds, name, node);
    if HidesNothing(ds, name, exclude, unread) {
      forall vcpu: u64, ramMB: u64 |
        AdmittedAmong(ds, exclude, unread, vcpu, ramMB, node) && NoWrap(Counted(ds, exclude, unread), vcpu, ramMB)
        ensures Fits(ds[name := Domain(vcpu, Mul64(ramMB, 1024))], node)
      {
        AdmittedOnAll(ds, name, exclude, unread, vcpu, ramMB, node);
        CountedAndHidden(ds, name, exclude, unread, VCPUOf);
        CountedAndHidden(ds, name, exclude, unread, MemMBOf);
        AdmissionExact(ds, name, Domain(vcpu, Mul64(ramMB, 1024)), vcpu, ramMB, node);
      }
    }
    if AdmissionSound(ds, name, exclude, unread, node) {
      RestOfNode(ds, name, exclude, unread, node);
    }
  }

  /** A request for all that the counted domains leave fits only if the hidden ones hold nothing. */
  lemma RestOfNode(ds: Domains, name: string, exclude: string, unread: set<string>, node: Node)
    requires Fits(ds - {name}, node) && name !in Counted(ds, exclude, unread)
    requires AdmissionSound(ds, name, exclude, unread, node)
    ensures HidesNothing(ds, name, exclude, unread)
  {
    CountedAndHidden(ds, name, exclude, unread, VCPUOf);
    CountedAndHidden(ds, name, exclude, unread, MemMBOf);
    var counted := Counted(ds, exclude, unread);
    var vcpu: u64, ramMB: u64 := node.vcpu - Total(counted, VCPUOf), node.RAMMB() - Total(counted, MemMBOf);
    Remainder(Total(counted, VCPUOf), Total(counted, MemMBOf), node);
    assert AdmittedAmong(ds, exclude, unread, vcpu, ramMB, node) && NoWrap(counted, vcpu, ramMB);
    var d := Domain(vcpu, Mul64(ramMB, 1024));
    StoredMB(ramMB);
    FitsAfter(ds, name, d, node);
  }

  lemma Remainder(usedVCPU: nat, usedRAMMB: nat, node: Node)
    requires usedVCPU <= node.vcpu && usedRAMMB <= node.RAMMB()
    ensures Admitted(usedVCPU % TWO_64, usedRAMMB % TWO_64, node.vcpu - usedVCPU, node.RAMMB() - usedRAMMB, node)
  {
  }

  /** A full node whose one domain could not be read admits another. */
  lemma HiddenDomainWitness()
    ensures var ds, node := map["busy" := Domain(4, 8192 * 1024)], Node(4, 8192 * 1024);
            var spec := CreateVMSpec("new", 1, 1024, 10, "", false, false);
            && Fits(ds, node) && ValidCreateSpec(spec)
            && AdmittedAmong(ds, "", {"busy"}, spec.vcpuCount, spec.ramMB, node)
            && !Fits(ds["new" := Requested(spec)], node)
  {
    var ds, node := map["busy" := Domain(4, 8192 * 1024)], Node(4, 8192 * 1024);
    SingleTotals("busy", Domain(4, 8192 * 1024));
    assert Counted(ds, "", {"busy"}) == map[];
    TotalUpdate(ds, "new", Domain(1, 1024 * 1024), VCPUOf);
    assert ds - {"new"} == ds;
    TrimSpaceTrims("new");
  }

  lemma SingleTotals(name: string, d: Domain)
    ensures Total(map[name := d], VCPUOf) == d.vcpu && Total(map[name := d], MemMBOf) == d.memKiB / 1024
  {
    var none: Domains := map[];
    TotalUpdate(none, name, d, VCPUOf);
    TotalUpdate(none, name, d, MemMBOf);
    assert none - {name} == none && none[name := d] == map[name := d];
  }

  // ---------------------------------------------------------------------------
  // Wrap-around
  // ---------------------------------------------------------------------------

  /** With nothing hidden, an admitted create keeps the ledger within the node if and only if it does not wrap. */
  lemma CreateExact(ds: Domains, name: string, spec: CreateVMSpec, unread: set<string>, node: Node)
    requires Fits(ds, node) && name !in ds && HidesNothing(ds, name, "", unread)
    requires AdmittedAmong(ds, "", unread, spec.vcpuCount, spec.ramMB, node)
    ensures Fits(ds[name := Requested(spec)], node) <==> NoWrap(ds, spec.vcpuCount, spec.ramMB)
  {
    assert ds - {name} == ds;
    AdmittedOnAll(ds, name, "", unread, spec.vcpuCount, spec.ramMB, node);
    AdmissionExact(ds, name, Requested(spec), spec.vcpuCount, spec.ramMB, node);
  }

  /** The ledger with one or both of a domain's new values written. */
  ghost predicate MixturesFit(ds: Domains, node: Node, name: string, vcpu: u64, ramMB: u64)
    requires name in ds
  {
    && Fits(ds[name := ds[name].(vcpu := vcpu)], node)
    && Fits(ds[name := ds[name].(memKiB := Mul64(ramMB, 1024))], node)
    && Fits(ds[name := ds[name].(vcpu := vcpu, memKiB := Mul64(ramMB, 1024))], node)
  }

  /** The domain an update asks for; memory that does not change in MiB is not written. */
  function Updated(d: Domain, spec: UpdateVMSpec): Domain {
    Domain(DesiredVCPU(d, spec),
           if DesiredRAMMB(d, spec) == d.memKiB / 1024 then d.memKiB else Mul64(DesiredRAMMB(d, spec), 1024))
  }

  /**
   The same for an update: what it asks for, and every mixture of old and new values on the way
   there, fits if and only if the request does not wrap around.
   */
  lemma UpdateExact(ds: Domains, name: string, spec: UpdateVMSpec, unread: set<string>, node: Node)
    requires Fits(ds, node) && name in ds && name != "" && Trimmed(name) && HidesNothing(ds, name, name, unread)
    requires AdmittedAmong(ds, name, unread, DesiredVCPU(ds[name], spec), DesiredRAMMB(ds[name], spec), node)
    ensures Fits(ds[name := Updated(ds[name], spec)], node)
            <==> NoWrap(ds - {name}, DesiredVCPU(ds[name], spec), DesiredRAMMB(ds[name], spec))
    ensures MixturesFit(ds, node, name, DesiredVCPU(ds[name], spec), DesiredRAMMB(ds[name], spec))
            <==> NoWrap(ds - {name}, DesiredVCPU(ds[name], spec), DesiredRAMMB(ds[name], spec))
  {
    var d, vcpu, ramMB := ds[name], DesiredVCPU(ds[name], spec), DesiredRAMMB(ds[name], spec);
    NeverCounted(ds, name, name, unread);
    AdmittedOnAll(ds, name, name, unread, vcpu, ramMB, node);
    RemovalFits(ds, name, node);
    AdmissionExact(ds, name, Updated(d, spec), vcpu, ramMB, node);
    MixturesExact(ds, name, vcpu, ramMB, node);
  }

  lemma MixturesExact(ds: Domains, name: string, vcpu: u64, ramMB: u64, node: Node)
    requires Fits(ds, node) && name in ds && Fits(ds - {name}, node)
    requires Admitted(Total(ds - {name}, VCPUOf) % TWO_64, Total(ds - {name}, MemMBOf) % TWO_64, vcpu, ramMB, node)
    ensures MixturesFit(ds, node, name, vcpu, ramMB) <==> NoWrap(ds - {name}, vcpu, ramMB)
  {
    var d := ds[name];
    AdmissionExact(ds, name, d.(vcpu := vcpu, memKiB := Mul64(ramMB, 1024)), vcpu, ramMB, node);
    if NoWrap(ds - {name}, vcpu, ramMB) {
      TrueSums(Total(ds - {name}, VCPUOf), Total(ds - {name}, MemMBOf), vcpu, ramMB, node);
      StoredMB(ramMB);
      AdmittedWriteFits(ds, name, d.(vcpu := vcpu), vcpu, ramMB, node);
      AdmittedWriteFits(ds, name, d.(memKiB := Mul64(ramMB, 1024)), vcpu, ramMB, node);
    }
  }

  /** One domain of a MiB, and a valid request for all but 1024 MiB of 2^64, which is admitted and does not fit. */
  lemma WrapAroundWitness()
    ensures var ds, node := map["old" := Domain(1, 1024 * 1024)], Node(8, 16384 * 1024);
            var spec := CreateVMSpec("new", 1, TWO_64 - 1024, 10, "", false, false);
            && Fits(ds, node) && LegibleNames(ds) && ValidCreateSpec(spec)
            && AdmittedAmong(ds, "", {}, spec.vcpuCount, spec.ramMB, node)
            && !Fits(ds["new" := Requested(spec)], node)
  {
    var ds, node := map["old" := Domain(1, 1024 * 1024)], Node(8, 16384 * 1024);
    var spec := CreateVMSpec("new", 1, TWO_64 - 1024, 10, "", false, false);
    SingleTotals("old", Domain(1, 1024 * 1024));
    LegibleHidesNothing(ds, "new", "");
    assert Counted(ds, "", {}) == ds;
    TrimSpaceTrims("new");
    CreateExact(ds, "new", spec, {}, node);
  }

  // ---------------------------------------------------------------------------
  // Rounding
  // ---------------------------------------------------------------------------

  /** After an admitted create the true allocation exceeds the node by at most 1023 KiB for each earlier domain. */
  lemma AdmittedCreateFloor(ds: Domains, name: string, spec: CreateVMSpec, unread: set<string>, node: Node)
    requires Fits(ds, node) && name !in ds && HidesNothing(ds, name, "", unread)
    requires AdmittedAmong(ds, "", unread, spec.vcpuCount, spec.ramMB, node) && NoWrap(ds, spec.vcpuCount, spec.ramMB)
    ensures Total(ds[name := Requested(spec)], MemKiBOf) <= node.memKiB + 1023 * |ds|
  {
    assert ds - {name} == ds;
    AdmittedOnAll(ds, name, "", unread, spec.vcpuCount, spec.ramMB, node);
    TrueSums(Total(ds, VCPUOf), Total(ds, MemMBOf), spec.vcpuCount, spec.ramMB, node);
    StoredMB(spec.ramMB);
    CreateFloorBound(ds, name, spec.vcpuCount, spec.ramMB, node);
  }
}
