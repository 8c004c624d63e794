/**
 The VM controller of internal/libvirt/vm/control.go: creates, updates, deletes and
 migrates domains on a hypervisor whose calls may fail half-way.
 */
module Controller {
  import opened Wrappers
  import opened Text
  import opened DomainConfig
  import opened Ledger
  import opened Admission

  /** A lookup by name: found, not found, or failed. */
  datatype Lookup = Found | NotFound | Failed

  /** The calls that ask for a change. */
  datatype Call =
    | MakeDisk(sizeGB: u64)
    | Define(name: string, domain: Domain)
    | SetVCPUs(name: string, vcpu: u64)
    | SetMem(name: string, memKiB: u64)
    | Autostart(name: string, on: bool)
    | Start(name: string)
    | Shutdown(name: string)
    | Destroy(name: string)
    | Remove(name: string)
    | Migrate(name: string)

  function Acked(ok: bool, call: Call): seq<Call> {
    if ok then [call] else []
  }

  /**
   Libvirt, as far as the ledger can tell. A call that sets something leaves the old or the
   requested value, whether or not it reports success; undefining removes a domain or leaves
   it, and reading a configuration may fail at any time. The history holds the defined domains
   after every call that may change them, the log the calls that reported success, and misread
   the domains whose configuration could not be read. refusals counts the calls that failed.
   */
  class Hypervisor {
    const node: Node
    const storageFree: u64
    var domains: Domains
    ghost var history: seq<Domains>
    ghost var log: seq<Call>
    ghost var misread: seq<string>
    ghost var refusals: nat

    constructor (node: Node, storageFree: u64, domains: Domains)
      ensures this.node == node && this.storageFree == storageFree
      ensures this.domains == domains && history == [domains] && log == [] && misread == []
    {
      this.node, this.storageFree := node, storageFree;
      this.domains, history, log, misread := domains, [domains], [], [];
      refusals := 0;
    }

    /** The ledger held after every call so far. */
    ghost predicate AlwaysFits()
      reads `domains, `history
    {
      Fits(domains, node) && forall i :: 0 <= i < |history| ==> Fits(history[i], node)
    }

    method LookupByName(name: string) returns (r: Lookup)
      modifies `refusals
      ensures refusals == old(refusals) + if r.Failed? then 1 else 0
      ensures r.Found? ==> name in domains
      ensures r.NotFound? ==> name !in domains
    {
      if * {
        refusals := refusals + 1;
        return Failed;
      }
      r := if name in domains then Found else NotFound;
    }

    method ListAll() returns (names: Option<seq<string>>)
      modifies `refusals
      ensures refusals == old(refusals) + if names == None then 1 else 0
      ensures names.Some? ==> (forall n :: n in names.value <==> n in domains)
      ensures names.Some? ==> forall i, j :: 0 <= i < j < |names.value| ==> names.value[i] != names.value[j]
    {
      if * {
        refusals := refusals + 1;
        return None;
      }
      var todo := domains.Keys;
      var listed: seq<string> := [];
      while todo != {}
        invariant todo <= domains.Keys
        invariant forall n :: n in listed <==> n in domains && n !in todo
        invariant forall i, j :: 0 <= i < j < |listed| ==> listed[i] != listed[j]
      {
        var n :| n in todo;
        listed := listed + [n];
        todo := todo - {n};
      }
      names := Some(listed);
    }

    /** The stored configuration of a domain, read through its XML, unless this call fails. */
    method ReadConfig(name: string) returns (cfg: Option<ParsedDomainConfig>)
      requires name in domains
      modifies `misread, `refusals
      ensures refusals == old(refusals) + if cfg == None then 1 else 0
      ensures misread == old(misread) + if cfg == None then [name] else []
      ensures cfg.Some? ==> cfg.value.vcpu == domains[name].vcpu && cfg.value.memoryMB == domains[name].memKiB / 1024
      ensures cfg.Some? ==> cfg.value.name == TrimSpace(name)
    {
      if * {
        misread := misread + [name];
        refusals := refusals + 1;
        return None;
      }
      var d := domains[name];
      var xml := Normalised(name, d.vcpu, d.memKiB, []);
      StoredReadsBack(name, d, name);
      var read := ReadDomainConfig(xml, name);
      cfg := Some(read);
    }

    lemma StoredReadsBack(name: string, d: Domain, domName: string)
      requires domName == name
      ensures var cfg := ConfigOf(Normalised(name, d.vcpu, d.memKiB, []), domName);
              cfg.name == TrimSpace(name) && cfg.vcpu == d.vcpu && cfg.memoryMB == d.memKiB / 1024
    {
      NumberReadsBack(d.memKiB, "KiB");
      NumberReadsBack(d.vcpu, "");
    }

    /** Replace the domains and remember it. */
    method Put(ds: Domains)
      modifies `domains, `history
      ensures domains == ds && history == old(history) + [ds]
    {
      domains := ds;
      history := history + [ds];
    }

    method DefineXML(name: string, d: Domain) returns (ok: bool)
      modifies `domains, `history, `log, `refusals
      ensures refusals == old(refusals) + if ok then 0 else 1
      ensures domains == old(domains) || domains == old(domains)[name := d]
      ensures ok ==> domains == old(domains)[name := d]
      ensures history == old(history) + [domains]
      ensures log == old(log) + Acked(ok, Define(name, d))
    {
      ok := *;
      var done: bool := *;
      Put(if ok || done then domains[name := d] else domains);
      log := log + Acked(ok, Define(name, d));
      refusals := refusals + if ok then 0 else 1;
    }

    method SetVcpus(name: string, vcpu: u64) returns (ok: bool)
      requires name in domains
      modifies `domains, `history, `log, `refusals
      ensures refusals == old(refusals) + if ok then 0 else 1
      ensures domains == old(domains) || domains == old(domains)[name := old(domains[name]).(vcpu := vcpu)]
      ensures history == old(history) + [domains]
      ensures log == old(log) + Acked(ok, SetVCPUs(name, vcpu))
    {
      ok := *;
      var done: bool := *;
      Put(if done then domains[name := domains[name].(vcpu := vcpu)] else domains);
      log := log + Acked(ok, SetVCPUs(name, vcpu));
      refusals := refusals + if ok then 0 else 1;
    }

    method SetMemory(name: string, memKiB: u64) returns (ok: bool)
      requires name in domains
      modifies `domains, `history, `log, `refusals
      ensures refusals == old(refusals) + if ok then 0 else 1
      ensures domains == old(domains) || domains == old(domains)[name := old(domains[name]).(memKiB := memKiB)]
      ensures history == old(history) + [domains]
      ensures log == old(log) + Acked(ok, SetMem(name, memKiB))
    {
      ok := *;
      var done: bool := *;
      Put(if done then domains[name := domains[name].(memKiB := memKiB)] else domains);
      log := log + Acked(ok, SetMem(name, memKiB));
      refusals := refusals + if ok then 0 else 1;
    }

    /** Stopping a domain or migrating it away: it may disappear. */
    method MayRemove(call: Call) returns (ok: bool)
      requires call.Shutdown? || call.Destroy? || call.Migrate?
      modifies `domains, `history, `log, `refusals
      ensures refusals == old(refusals) + if ok then 0 else 1
      ensures domains == old(domains) || domains == old(domains) - {call.name}
      ensures history == old(history) + [domains]
      ensures log == old(log) + Acked(ok, call)
    {
      ok := *;
      var gone: bool := *;
      Put(if gone then domains - {call.name} else domains);
      log := log + Acked(ok, call);
      refusals := refusals + if ok then 0 else 1;
    }

    method Undefine(name: string) returns (ok: bool)
      modifies `domains, `history, `log, `refusals
      ensures refusals == old(refusals) + if ok then 0 else 1
      ensures domains == old(domains) || domains == old(domains) - {name}
      ensures ok ==> name !in domains
      ensures history == old(history) + [domains]
      ensures log == old(log) + Acked(ok, Remove(name))
    {
      ok := *;
      var gone: bool := *;
      Put(if ok || gone then domains - {name} else domains);
      log := log + Acked(ok, Remove(name));
      refusals := refusals + if ok then 0 else 1;
    }

    /** Making a disk image, setting autostart, starting: nothing the ledger sees. */
    method Request(call: Call) returns (ok: bool)
      modifies `log, `refusals
      ensures refusals == old(refusals) + if ok then 0 else 1
      ensures log == old(log) + Acked(ok, call)
    {
      ok := *;
      log := log + Acked(ok, call);
      refusals := refusals + if ok then 0 else 1;
    }

    /** Connecting, or reading something of the node or a domain's state. */
    method Reach() returns (ok: bool)
      modifies `refusals
      ensures refusals == old(refusals) + if ok then 0 else 1
    {
      ok := *;
      refusals := refusals + if ok then 0 else 1;
    }

    /** Whether a domain is known to be running. */
    method IsRunning() returns (yes: bool) {
      yes := *;
    }

    /** Wait for a domain to stop; it may not do so in time. */
    method WaitStopped() returns (stopped: bool)
      modifies `refusals
      ensures refusals == old(refusals) + if stopped then 0 else 1
    {
      stopped := *;
      refusals := refusals + if stopped then 0 else 1;
    }

    method StorageFree() returns (free: Option<u64>)
      modifies `refusals
      ensures refusals == old(refusals) + if free == None then 1 else 0
      ensures free.Some? ==> free.value == storageFree
    {
      if * {
        refusals := refusals + 1;
        return None;
      }
      free := Some(storageFree);
    }
  }

  /** The domains whose configuration could not be read since then. */
  ghost function Since(misread: seq<string>, before: seq<string>): set<string> {
    set n | n in misread && |before| <= |misread| && n in misread[|before|..]
  }

  const GIB: u64 := 0x4000_0000

  datatype Rejection = Admit | NoCPU | NoRAM | NoStorage

  datatype OperationResult = OperationResult(ok: bool, rejected: bool, message: string)

  function RejectMessage(r: Rejection): string {
    match r
    case Admit => ""
    case NoCPU => "insufficient cpu capacity"
    case NoRAM => "insufficient ram capacity"
    case NoStorage => "insufficient storage capacity"
  }

  datatype Request =
    | Create(create: CreateVMSpec)
    | Update(update: UpdateVMSpec)
    | Delete(name: string, force: bool)
    | MigrateTo(name: string, uri: string, live: bool, fallback: bool)

  /** What a request asks for, added to the node itself, stays below 2^64. */
  predicate Moderate(q: Request, node: Node) {
    match q
    case Create(spec) => spec.vcpuCount + node.vcpu < TWO_64 && spec.ramMB + node.RAMMB() < TWO_64
    case Update(spec) => spec.vcpuCount + node.vcpu < TWO_64 && spec.ramMB + node.RAMMB() < TWO_64
    case _ => true
  }

  /** The calls a successful create makes, in order. */
  function CreateCalls(name: string, spec: CreateVMSpec): seq<Call> {
    [MakeDisk(spec.diskSizeGB), Define(name, Requested(spec))] + StartCalls(name, spec)
  }

  function StartCalls(name: string, spec: CreateVMSpec): seq<Call> {
    (if spec.autostart then [Autostart(name, true)] else []) + (if spec.startNow then [Start(name)] else [])
  }

  /** The writes that take a domain to the desired values: only what differs. */
  function WriteCalls(name: string, d: Domain, vcpu: u64, ramMB: u64): seq<Call> {
    (if vcpu != d.vcpu then [SetVCPUs(name, vcpu)] else [])
    + (if ramMB != d.memKiB / 1024 then [SetMem(name, Mul64(ramMB, 1024))] else [])
  }

  /** The calls a successful update of a domain makes, in order. */
  function UpdateCalls(name: string, d: Domain, spec: UpdateVMSpec): seq<Call> {
    WriteCalls(name, d, DesiredVCPU(d, spec), DesiredRAMMB(d, spec))
    + (if spec.autostart.Some? then [Autostart(name, spec.autostart.value)] else [])
  }

  /**
   The calls that carry an update out: a vCPU count or an amount of memory that was asked for and
   differs is written, once and in this order, autostart is set as asked, and nothing else is done.
   */
  ghost predicate CarriesOut(calls: seq<Call>, name: string, d: Domain, spec: UpdateVMSpec) {
    && (forall v: u64 :: SetVCPUs(name, v) in calls <==> v == spec.vcpuCount && v > 0 && v != d.vcpu)
    && (forall m: u64 :: SetMem(name, m) in calls
                         <==> m == (spec.ramMB * 1024) % TWO_64 && spec.ramMB > 0 && spec.ramMB != d.memKiB / 1024)
    && (forall on :: Autostart(name, on) in calls <==> spec.autostart == Some(on))
    && (forall call :: call in calls ==> call.SetVCPUs? || call.SetMem? || call.Autostart?)
    && (forall call :: call in calls ==> call.name == name)
    && (forall i, j :: 0 <= i < j < |calls| ==>
          (calls[i].SetVCPUs? && !calls[j].SetVCPUs?) || (calls[i].SetMem? && calls[j].Autostart?))
  }

  lemma UpdateCallsCarryOut(name: string, d: Domain, spec: UpdateVMSpec)
    ensures CarriesOut(UpdateCalls(name, d, spec), name, d, spec)
  {
  }

  /** The calls that make a domain: its disk, its definition, then autostart and the start, each only if asked for. */
  ghost predicate Makes(calls: seq<Call>, name: string, spec: CreateVMSpec) {
    && |calls| == 2 + (if spec.autostart then 1 else 0) + (if spec.startNow then 1 else 0)
    && calls[0] == MakeDisk(spec.diskSizeGB)
    && calls[1] == Define(name, Domain(spec.vcpuCount, (spec.ramMB * 1024) % TWO_64))
    && (spec.autostart ==> calls[2] == Autostart(name, true))
    && (spec.startNow ==> calls[|calls| - 1] == Start(name))
  }

  /** Why an admission failed, in words: what is wanted of vCPUs and memory against what the node has. */
  ghost predicate Explains(
    message: string, ds: Domains, exclude: string, unread: set<string>, vcpu: u64, ramMB: u64, node: Node)
  {
    var counted := Counted(ds, exclude, unread);
    message ==
    if (Total(counted, VCPUOf) % TWO_64 + vcpu) % TWO_64 > node.vcpu then "insufficient cpu capacity"
    else if (Total(counted, MemMBOf) % TWO_64 + ramMB) % TWO_64 > node.memKiB / 1024 then "insufficient ram capacity"
    else "insufficient storage capacity"
  }

  /** Only the named domain differs, and each of its values is the old or the requested one. */
  ghost predicate UpdatedOnly(before: Domains, after: Domains, name: string, spec: UpdateVMSpec)
    requires name in before
  {
    && name in after && after == before[name := after[name]]
    && (after[name].vcpu == before[name].vcpu || after[name].vcpu == spec.vcpuCount)
    && (after[name].memKiB == before[name].memKiB || after[name].memKiB == Mul64(spec.ramMB, 1024))
  }

  ghost predicate FullyUpdated(before: Domains, after: Domains, name: string, spec: UpdateVMSpec) {
    name in before && after == before[name := Updated(before[name], spec)]
  }

  /** What the update asks for, added to all other domains, stays below 2^64. */
  ghost predicate Bounded(ds: Domains, name: string, spec: UpdateVMSpec) {
    name in ds ==> NoWrap(ds - {name}, DesiredVCPU(ds[name], spec), DesiredRAMMB(ds[name], spec))
  }

  class Controller {
    const hv: Hypervisor

    constructor (hv: Hypervisor)
      ensures this.hv == hv
    {
      this.hv := hv;
    }

    /** Sums over the domains read and not excluded, each wrapping around at 2^64. */
    method ReadAllocatedCapacity(exclude: string) returns (used: Option<(u64, u64)>)
      modifies hv`misread, hv`refusals
      ensures old(hv.misread) <= hv.misread
      ensures used.Some? ==>
                var unread := Since(hv.misread, old(hv.misread));
                var counted := Counted(hv.domains, exclude, unread);
                && (forall n :: n in counted
                                <==> n in hv.domains && n !in unread && (exclude == "" || TrimSpace(n) != exclude))
                && used.value == (Total(counted, VCPUOf) % TWO_64, Total(counted, MemMBOf) % TWO_64)
      ensures if used == None then hv.refusals > old(hv.refusals) else hv.refusals >= old(hv.refusals)
    {
      var names := hv.ListAll();
      if names == None {
        return None;
      }
      var usedVCPU: u64, usedRAMMB: u64 := 0, 0;
      ghost var seen: Domains := map[];
      for i := 0 to |names.value|
        invariant old(hv.misread) <= hv.misread && hv.refusals >= old(hv.refusals)
        invariant forall n :: n in Since(hv.misread, old(hv.misread)) ==> n in names.value[..i]
        invariant forall n :: n in seen ==> n in hv.domains && seen[n] == hv.domains[n]
        invariant forall n :: n in seen <==> n in names.value[..i]
                                             && n in Counted(hv.domains, exclude, Since(hv.misread, old(hv.misread)))
        invariant usedVCPU == Total(seen, VCPUOf) % TWO_64
        invariant usedRAMMB == Total(seen, MemMBOf) % TWO_64
      {
        var name := names.value[i];
        assert names.value[..i + 1] == names.value[..i] + [name];
        assert name !in names.value[..i];
        ghost var before := hv.misread;
        var cfg := hv.ReadConfig(name);
        SinceGrows(old(hv.misread), before, hv.misread, name);
        if cfg == None || (exclude != "" && cfg.value.name == exclude) {
          continue;
        }
        AddDomain(seen, name, hv.domains[name]);
        seen := seen[name := hv.domains[name]];
        usedVCPU := Add64(usedVCPU, cfg.value.vcpu);
        usedRAMMB := Add64(usedRAMMB, cfg.value.memoryMB);
      }
      assert seen == Counted(hv.domains, exclude, Since(hv.misread, old(hv.misread)));
      used := Some((usedVCPU, usedRAMMB));
    }

    lemma SinceGrows(start: seq<string>, before: seq<string>, after: seq<string>, name: string)
      requires start <= before && (after == before || after == before + [name])
      ensures start <= after
      ensures Since(after, start) == Since(before, start) + if after == before then {} else {name}
    {
      if after == before + [name] {
        assert after[|start|..] == before[|start|..] + [name];
      }
    }

    lemma AddDomain(ds: Domains, name: string, d: Domain)
      requires name !in ds
      ensures Total(ds[name := d], VCPUOf) % TWO_64 == Add64(Total(ds, VCPUOf) % TWO_64, d.vcpu)
      ensures Total(ds[name := d], MemMBOf) % TWO_64 == Add64(Total(ds, MemMBOf) % TWO_64, d.memKiB / 1024)
    {
      assert ds - {name} == ds;
      TotalUpdate(ds, name, d, VCPUOf);
      TotalUpdate(ds, name, d, MemMBOf);
      WrappingSum(Total(ds, VCPUOf), d.vcpu);
      WrappingSum(Total(ds, MemMBOf), d.memKiB / 1024);
    }

    lemma WrappingSum(a: nat, b: u64)
      ensures Add64(a % TWO_64, b) == (a + b) % TWO_64
    {
    }

    /** Compare the request with what the node has left; None when something could not be read. */
    method CheckAdmission(exclude: string, reqVCPU: u64, reqRAMMB: u64, reqDiskB: u64) returns (r: Option<Rejection>)
      modifies hv`misread, hv`refusals
      ensures old(hv.misread) <= hv.misread
      ensures r.Some? ==>
                var unread := Since(hv.misread, old(hv.misread));
                var usedVCPU := Total(Counted(hv.domains, exclude, unread), VCPUOf) % TWO_64;
                var cpuFits := Add64(usedVCPU, reqVCPU) <= hv.node.vcpu;
                var admitted := AdmittedAmong(hv.domains, exclude, unread, reqVCPU, reqRAMMB, hv.node);
                && (r.value.NoCPU? <==> !cpuFits)
                && (r.value.NoRAM? <==> cpuFits && !admitted)
                && (r.value.NoStorage? <==> admitted && hv.storageFree < reqDiskB)
      ensures if r == None then hv.refusals > old(hv.refusals) else hv.refusals >= old(hv.refusals)
    {
      var capacity := hv.Reach();
      if !capacity {
        return None;
      }
      var used := ReadAllocatedCapacity(exclude);
      if used == None {
        return None;
      }
      var free := hv.StorageFree();
      if free == None {
        return None;
      }
      if Add64(used.value.0, reqVCPU) > hv.node.vcpu {
        return Some(NoCPU);
      }
      if Add64(used.value.1, reqRAMMB) > hv.node.RAMMB() {
        return Some(NoRAM);
      }
      if reqDiskB > 0 && free.value < reqDiskB {
        return Some(NoStorage);
      }
      r := Some(Admit);
    }

    /** What an admission answers: None when something could not be read, otherwise why it rejects, if it does. */
    method Refuse(exclude: string, reqVCPU: u64, reqRAMMB: u64, reqDiskB: u64) returns (r: Option<Option<string>>)
      modifies hv`misread, hv`refusals
      ensures old(hv.misread) <= hv.misread
      ensures var unread := Since(hv.misread, old(hv.misread));
              var admitted := AdmittedAmong(hv.domains, exclude, unread, reqVCPU, reqRAMMB, hv.node);
              r.Some? ==>
                && (r.value == None <==> admitted && reqDiskB <= hv.storageFree)
                && (r.value.Some? ==> Explains(r.value.value, hv.domains, exclude, unread, reqVCPU, reqRAMMB, hv.node))
      ensures if r == None then hv.refusals > old(hv.refusals) else hv.refusals >= old(hv.refusals)
    {
      var admission := CheckAdmission(exclude, reqVCPU, reqRAMMB, reqDiskB);
      if admission == None {
        return None;
      }
      r := Some(if admission.value.Admit? then None else Some(RejectMessage(admission.value)));
    }

    /** What ends a create before it changes anything: None when it may go ahead. */
    method RefuseCreate(name: string, spec: CreateVMSpec) returns (r: Option<Result<OperationResult>>)
      requires name == TrimSpace(spec.name)
      modifies hv`misread, hv`refusals
      ensures old(hv.misread) <= hv.misread
      ensures var unread := Since(hv.misread, old(hv.misread));
              r == None ==> ValidCreateSpec(spec) && name !in hv.domains && CreateAdmitted(spec, unread)
      ensures var unread := Since(hv.misread, old(hv.misread));
              r.Some? && r.value.Ok? ==>
                && !r.value.value.ok
                && if r.value.value.rejected
                   then ValidCreateSpec(spec) && name !in hv.domains && !CreateAdmitted(spec, unread)
                        && CreateRejection(r.value.value.message, spec, unread)
                   else if ValidCreateSpec(spec) then name in hv.domains && r.value.value.message == "vm already exists"
                   else ValidateCreateSpec(spec) == Some(r.value.value.message)
      ensures if r.Some? && r.value.Err? then hv.refusals > old(hv.refusals) else hv.refusals >= old(hv.refusals)
    {
      var fault := ValidateCreateSpec(spec);
      if fault.Some? {
        return Some(Ok(OperationResult(false, false, fault.value)));
      }
      var connected := hv.Reach();
      if !connected {
        return Some(Err("connect"));
      }
      var found := hv.LookupByName(name);
      if found.Found? {
        return Some(Ok(OperationResult(false, false, "vm already exists")));
      }
      if found.Failed? {
        return Some(Err("lookup vm"));
      }
      var refusal := Refuse("", spec.vcpuCount, spec.ramMB, Mul64(spec.diskSizeGB, GIB));
      if refusal == None {
        return Some(Err("check admission"));
      }
      r := if refusal.value == None then None else Some(Ok(OperationResult(false, true, refusal.value.value)));
    }

    ghost predicate CreateRejection(message: string, spec: CreateVMSpec, unread: set<string>)
      reads hv`domains
    {
      Explains(message, hv.domains, "", unread, spec.vcpuCount, spec.ramMB, hv.node)
    }

    ghost predicate CreateAdmitted(spec: CreateVMSpec, unread: set<string>)
      reads hv`domains
    {
      && AdmittedAmong(hv.domains, "", unread, spec.vcpuCount, spec.ramMB, hv.node)
      && (spec.diskSizeGB * 1_073_741_824) % TWO_64 <= hv.storageFree
    }

    /**
     Create: when the domains skipped on admission hold nothing, the ledger holds after every call
     if and only if nothing was defined or the request added to what is used stays below 2^64. Only
     an admitted request changes anything, and a successful one has made all its calls.
     */
    method CreateVM(spec: CreateVMSpec) returns (r: Result<OperationResult>)
      modifies hv
      ensures old(hv.misread) <= hv.misread
      ensures LegibleNames(old(hv.domains)) ==> LegibleNames(hv.domains)
      ensures var unread := Since(hv.misread, old(hv.misread));
              old(hv.AlwaysFits()) && HidesNothing(old(hv.domains), TrimSpace(spec.name), "", unread) ==>
                (hv.AlwaysFits()
                 <==> hv.domains == old(hv.domains) || NoWrap(old(hv.domains), spec.vcpuCount, spec.ramMB))
      ensures var name, unread := TrimSpace(spec.name), Since(hv.misread, old(hv.misread));
              hv.domains == old(hv.domains)
              || (ValidCreateSpec(spec) && name !in old(hv.domains) && old(CreateAdmitted(spec, unread))
                  && hv.domains == old(hv.domains)[name := Requested(spec)])
      ensures r.Ok? && r.value.ok ==> TrimSpace(spec.name) in hv.domains && hv.domains != old(hv.domains)
      ensures var name, unread := TrimSpace(spec.name), Since(hv.misread, old(hv.misread));
              r.Ok? && !r.value.ok ==>
                && hv.domains == old(hv.domains)
                && if r.value.rejected
                   then ValidCreateSpec(spec) && name !in hv.domains && !old(CreateAdmitted(spec, unread))
                        && old(CreateRejection(r.value.message, spec, unread))
                   else if ValidCreateSpec(spec) then name in hv.domains && r.value.message == "vm already exists"
                   else ValidateCreateSpec(spec) == Some(r.value.message)
      ensures match r
              case Ok(v) =>
                && hv.log == old(hv.log) + (if v.ok then CreateCalls(TrimSpace(spec.name), spec) else [])
                && (v.ok ==> Makes(hv.log[|old(hv.log)|..], TrimSpace(spec.name), spec))
              case Err(_) => old(hv.log) <= hv.log < old(hv.log) + CreateCalls(TrimSpace(spec.name), spec)
      ensures if r.Err? then hv.refusals > old(hv.refusals) else hv.refusals >= old(hv.refusals)
    {
      var name := TrimSpace(spec.name);
      TrimSpaceTrims(spec.name);
      var refused := RefuseCreate(name, spec);
      if refused.Some? {
        return refused.value;
      }
      ghost var unread := Since(hv.misread, old(hv.misread));
      if hv.AlwaysFits() && HidesNothing(hv.domains, name, "", unread) {
        CreateExact(hv.domains, name, spec, unread, hv.node);
      }
      var failure := Provision(name, spec);
      assert failure == None ==> hv.log[|old(hv.log)|..] == CreateCalls(name, spec);
      r := if failure == None then Ok(OperationResult(true, false, "vm created")) else Err(failure.value);
    }

    /** Make the disk, define the domain and start it as asked. */
    method Provision(name: string, spec: CreateVMSpec) returns (failure: Option<string>)
      modifies hv`domains, hv`history, hv`log, hv`refusals
      ensures old(hv.AlwaysFits()) ==> (hv.AlwaysFits() <==> Fits(hv.domains, hv.node))
      ensures hv.domains == old(hv.domains) || hv.domains == old(hv.domains)[name := Requested(spec)]
      ensures if failure == None
              then hv.domains == old(hv.domains)[name := Requested(spec)]
                   && hv.log == old(hv.log) + CreateCalls(name, spec)
              else old(hv.log) <= hv.log < old(hv.log) + CreateCalls(name, spec)
      ensures if failure.Some? then hv.refusals > old(hv.refusals) else hv.refusals >= old(hv.refusals)
    {
      var diskOK := hv.Request(MakeDisk(spec.diskSizeGB));
      if !diskOK {
        return Some("create disk image");
      }
      var defined := hv.DefineXML(name, Requested(spec));
      if !defined {
        return Some("define vm");
      }
      assert hv.log == old(hv.log) + [MakeDisk(spec.diskSizeGB), Define(name, Requested(spec))];
      failure := StartAsAsked(name, spec);
    }

    /** The last steps of a create. */
    method StartAsAsked(name: string, spec: CreateVMSpec) returns (failure: Option<string>)
      modifies hv`log, hv`refusals
      ensures if failure == None then hv.log == old(hv.log) + StartCalls(name, spec)
              else old(hv.log) <= hv.log < old(hv.log) + StartCalls(name, spec)
      ensures if failure.Some? then hv.refusals > old(hv.refusals) else hv.refusals >= old(hv.refusals)
    {
      if spec.autostart {
        var done := hv.Request(Autostart(name, true));
        if !done {
          return Some("set autostart");
        }
      }
      if spec.startNow {
        var started := hv.Request(Start(name));
        if !started {
          return Some("start vm");
        }
      }
      failure := None;
    }

    lemma SameWriteTwice(ds: Domains, name: string, d: Domain)
      ensures ds[name := d][name := d] == ds[name := d]
    {
    }

    /** Set the vCPU count live and in the configuration, or in the configuration alone. */
    method WriteVcpus(name: string, vcpu: u64) returns (ok: bool)
      requires name in hv.domains
      modifies hv`domains, hv`history, hv`log, hv`refusals
      ensures old(hv.AlwaysFits()) && Fits(old(hv.domains)[name := old(hv.domains[name]).(vcpu := vcpu)], hv.node)
              ==> hv.AlwaysFits()
      ensures hv.domains == old(hv.domains)
              || hv.domains == old(hv.domains)[name := old(hv.domains[name]).(vcpu := vcpu)]
      ensures hv.log == old(hv.log) + Acked(ok, SetVCPUs(name, vcpu))
      ensures if ok then hv.refusals >= old(hv.refusals) else hv.refusals > old(hv.refusals)
    {
      ghost var before := hv.domains;
      ok := hv.SetVcpus(name, vcpu);
      if !ok {
        SameWriteTwice(before, name, before[name].(vcpu := vcpu));
        ok := hv.SetVcpus(name, vcpu);
      }
    }

    /** Set the memory live and in the configuration, or in the configuration alone. */
    method WriteMemory(name: string, memKiB: u64) returns (ok: bool)
      requires name in hv.domains
      modifies hv`domains, hv`history, hv`log, hv`refusals
      ensures old(hv.AlwaysFits()) && Fits(old(hv.domains)[name := old(hv.domains[name]).(memKiB := memKiB)], hv.node)
              ==> hv.AlwaysFits()
      ensures hv.domains == old(hv.domains)
              || hv.domains == old(hv.domains)[name := old(hv.domains[name]).(memKiB := memKiB)]
      ensures hv.log == old(hv.log) + Acked(ok, SetMem(name, memKiB))
      ensures if ok then hv.refusals >= old(hv.refusals) else hv.refusals > old(hv.refusals)
    {
      ghost var before := hv.domains;
      ok := hv.SetMemory(name, memKiB);
      if !ok {
        SameWriteTwice(before, name, before[name].(memKiB := memKiB));
        ok := hv.SetMemory(name, memKiB);
      }
    }

    ghost predicate UpdateRejection(message: string, name: string, spec: UpdateVMSpec, unread: set<string>)
      requires name in hv.domains
      reads hv`domains
    {
      var vcpu := if spec.vcpuCount > 0 then spec.vcpuCount else hv.domains[name].vcpu;
      var ramMB := if spec.ramMB > 0 then spec.ramMB else hv.domains[name].memKiB / 1024;
      Explains(message, hv.domains, name, unread, vcpu, ramMB, hv.node)
    }

    /** The sums and the comparison use what is asked for, and what is there where nothing is asked for. */
    ghost predicate UpdateAdmitted(name: string, spec: UpdateVMSpec, unread: set<string>)
      requires name in hv.domains
      reads hv`domains
    {
      var vcpu := if spec.vcpuCount > 0 then spec.vcpuCount else hv.domains[name].vcpu;
      var ramMB := if spec.ramMB > 0 then spec.ramMB else hv.domains[name].memKiB / 1024;
      AdmittedAmong(hv.domains, name, unread, vcpu, ramMB, hv.node)
    }

    /** What ends an update before it changes anything; None, and what was read, when it may go ahead. */
    method RefuseUpdate(name: string, spec: UpdateVMSpec)
      returns (r: Option<Result<OperationResult>>, cfg: ParsedDomainConfig)
      requires name == TrimSpace(spec.name)
      modifies hv`misread, hv`refusals
      ensures old(hv.misread) <= hv.misread
      ensures var unread := Since(hv.misread, old(hv.misread));
              r == None ==>
                && name != "" && name in hv.domains && UpdateAdmitted(name, spec, unread)
                && cfg.vcpu == hv.domains[name].vcpu && cfg.memoryMB == hv.domains[name].memKiB / 1024
      ensures var unread := Since(hv.misread, old(hv.misread));
              r.Some? && r.value.Ok? ==>
                && !r.value.value.ok
                && if r.value.value.rejected
                   then name in hv.domains && !UpdateAdmitted(name, spec, unread)
                        && UpdateRejection(r.value.value.message, name, spec, unread)
                   else if name == "" then r.value.value.message == "vm name is required"
                   else name !in hv.domains && r.value.value.message == "vm not found"
      ensures if r.Some? && r.value.Err? then hv.refusals > old(hv.refusals) else hv.refusals >= old(hv.refusals)
    {
      cfg := ParsedDomainConfig("", 0, 0, []);
      if name == "" {
        return Some(Ok(OperationResult(false, false, "vm name is required"))), cfg;
      }
      var connected := hv.Reach();
      if !connected {
        return Some(Err("connect")), cfg;
      }
      var found := hv.LookupByName(name);
      if found.NotFound? {
        return Some(Ok(OperationResult(false, false, "vm not found"))), cfg;
      }
      if found.Failed? {
        return Some(Err("lookup vm")), cfg;
      }
      var read := hv.ReadConfig(name);
      if read == None {
        return Some(Err("read vm config")), cfg;
      }
      cfg := read.value;
      var desiredVCPU: u64 := if spec.vcpuCount > 0 then spec.vcpuCount else cfg.vcpu;
      var desiredRAMMB: u64 := if spec.ramMB > 0 then spec.ramMB else cfg.memoryMB;
      var refusal := Refuse(name, desiredVCPU, desiredRAMMB, 0);
      if refusal == None {
        return Some(Err("check admission")), cfg;
      }
      r := if refusal.value == None then None else Some(Ok(OperationResult(false, true, refusal.value.value)));
    }

    /**
     Update: when the domains skipped on admission hold nothing, the ledger holds after every call,
     half-way failures and config-only fallbacks included, provided the request added to the other
     domains stays below 2^64, and once all of it is written only then. Only an admitted request
     changes anything, nothing but the named domain changes, its values stay the old or become the
     requested ones, and a success has made exactly the calls that differ from what was there.
     */
    method UpdateVM(spec: UpdateVMSpec) returns (r: Result<OperationResult>)
      modifies hv
      ensures old(hv.misread) <= hv.misread
      ensures LegibleNames(old(hv.domains)) ==> LegibleNames(hv.domains)
      ensures var name, unread := TrimSpace(spec.name), Since(hv.misread, old(hv.misread));
              old(hv.AlwaysFits()) && HidesNothing(old(hv.domains), name, name, unread) ==>
                && (Bounded(old(hv.domains), name, spec) ==> hv.AlwaysFits())
                && (hv.domains != old(hv.domains) && FullyUpdated(old(hv.domains), hv.domains, name, spec)
                    ==> (hv.AlwaysFits() <==> Bounded(old(hv.domains), name, spec)))
      ensures var name, unread := TrimSpace(spec.name), Since(hv.misread, old(hv.misread));
              hv.domains == old(hv.domains)
              || (name in old(hv.domains) && old(UpdateAdmitted(name, spec, unread))
                  && UpdatedOnly(old(hv.domains), hv.domains, name, spec))
      ensures var name, unread := TrimSpace(spec.name), Since(hv.misread, old(hv.misread));
              r.Ok? && r.value.ok ==>
                && name in old(hv.domains) && old(UpdateAdmitted(name, spec, unread))
                && old(hv.log) <= hv.log
                && CarriesOut(hv.log[|old(hv.log)|..], name, old(hv.domains)[name], spec)
                && (r.value.message == "no changes" <==> hv.log == old(hv.log))
      ensures var name, unread := TrimSpace(spec.name), Since(hv.misread, old(hv.misread));
              r.Ok? && !r.value.ok ==>
                && hv.domains == old(hv.domains) && hv.log == old(hv.log)
                && if r.value.rejected
                   then name in old(hv.domains) && !old(UpdateAdmitted(name, spec, unread))
                        && old(UpdateRejection(r.value.message, name, spec, unread))
                   else if name == "" then r.value.message == "vm name is required"
                   else name !in old(hv.domains) && r.value.message == "vm not found"
      ensures if r.Err? then hv.refusals > old(hv.refusals) else hv.refusals >= old(hv.refusals)
    {
      var name := TrimSpace(spec.name);
      TrimSpaceTrims(spec.name);
      var refused, cfg := RefuseUpdate(name, spec);
      if refused.Some? {
        return refused.value;
      }
      ghost var unread := Since(hv.misread, old(hv.misread));
      if hv.AlwaysFits() && HidesNothing(hv.domains, name, name, unread) {
        UpdateExact(hv.domains, name, spec, unread, hv.node);
      }
      r := PerformUpdate(name, spec, cfg);
    }

    /** Carry an admitted update out. */
    method PerformUpdate(name: string, spec: UpdateVMSpec, cfg: ParsedDomainConfig) returns (r: Result<OperationResult>)
      requires name in hv.domains
      requires cfg.vcpu == hv.domains[name].vcpu && cfg.memoryMB == hv.domains[name].memKiB / 1024
      modifies hv`domains, hv`history, hv`log, hv`refusals
      ensures var ds, d := old(hv.domains), old(hv.domains)[name];
              old(hv.AlwaysFits()) && MixturesFit(ds, hv.node, name, DesiredVCPU(d, spec), DesiredRAMMB(d, spec))
              ==> hv.AlwaysFits()
      ensures hv.domains == old(hv.domains) || UpdatedOnly(old(hv.domains), hv.domains, name, spec)
      ensures r.Ok? ==>
                && r.value.ok && !r.value.rejected && old(hv.log) <= hv.log
                && CarriesOut(hv.log[|old(hv.log)|..], name, old(hv.domains)[name], spec)
                && (r.value.message == "no changes" <==> hv.log == old(hv.log))
      ensures if r.Err? then hv.refusals > old(hv.refusals) else hv.refusals >= old(hv.refusals)
    {
      UpdateCallsCarryOut(name, hv.domains[name], spec);
      r := WriteUpdate(name, spec, cfg);
      assert r.Ok? ==> hv.log[|old(hv.log)|..] == UpdateCalls(name, old(hv.domains)[name], spec);
    }

    /** Write what differs, the vCPU count first, and set autostart as asked. */
    method WriteUpdate(name: string, spec: UpdateVMSpec, cfg: ParsedDomainConfig) returns (r: Result<OperationResult>)
      requires name in hv.domains
      requires cfg.vcpu == hv.domains[name].vcpu && cfg.memoryMB == hv.domains[name].memKiB / 1024
      modifies hv`domains, hv`history, hv`log, hv`refusals
      ensures var ds, d := old(hv.domains), old(hv.domains)[name];
              old(hv.AlwaysFits()) && MixturesFit(ds, hv.node, name, DesiredVCPU(d, spec), DesiredRAMMB(d, spec))
              ==> hv.AlwaysFits()
      ensures hv.domains == old(hv.domains) || UpdatedOnly(old(hv.domains), hv.domains, name, spec)
      ensures r.Ok? ==>
                && r.value.ok && !r.value.rejected
                && hv.log == old(hv.log) + UpdateCalls(name, old(hv.domains)[name], spec)
                && (r.value.message == "no changes" <==> hv.log == old(hv.log))
      ensures if r.Err? then hv.refusals > old(hv.refusals) else hv.refusals >= old(hv.refusals)
    {
      var vcpu: u64 := if spec.vcpuCount > 0 then spec.vcpuCount else cfg.vcpu;
      var ramMB: u64 := if spec.ramMB > 0 then spec.ramMB else cfg.memoryMB;
      var failure, changed := WriteBoth(name, cfg, vcpu, ramMB);
      if failure.Some? {
        return Err(failure.value);
      }
      if spec.autostart.Some? {
        var done := hv.Request(Autostart(name, spec.autostart.value));
        if !done {
          return Err("update vm autostart");
        }
        changed := true;
      }
      r := Ok(OperationResult(true, false, if changed then "vm updated" else "no changes"));
    }

    /** Write the two values of an admitted update, the vCPU count first. */
    method WriteBoth(name: string, cfg: ParsedDomainConfig, vcpu: u64, ramMB: u64)
      returns (failure: Option<string>, changed: bool)
      requires name in hv.domains
      requires cfg.vcpu == hv.domains[name].vcpu && cfg.memoryMB == hv.domains[name].memKiB / 1024
      requires vcpu != cfg.vcpu ==> vcpu < 0x1_0000_0000
      modifies hv`domains, hv`history, hv`log, hv`refusals
      ensures changed <==> hv.log != old(hv.log)
      ensures var calls := WriteCalls(name, old(hv.domains)[name], vcpu, ramMB);
              if failure == None then hv.log == old(hv.log) + calls
              else old(hv.log) <= hv.log < old(hv.log) + calls
      ensures old(hv.AlwaysFits()) && MixturesFit(old(hv.domains), hv.node, name, vcpu, ramMB) ==> hv.AlwaysFits()
      ensures hv.domains == old(hv.domains)
              || (name in hv.domains && hv.domains == old(hv.domains)[name := hv.domains[name]])
      ensures hv.domains[name].vcpu == old(hv.domains)[name].vcpu
              || (vcpu != cfg.vcpu && hv.domains[name].vcpu == vcpu)
      ensures hv.domains[name].memKiB == old(hv.domains)[name].memKiB
              || (ramMB != cfg.memoryMB && hv.domains[name].memKiB == Mul64(ramMB, 1024))
      ensures if failure.Some? then hv.refusals > old(hv.refusals) else hv.refusals >= old(hv.refusals)
    {
      changed := false;
      ghost var before := hv.domains;
      if vcpu != cfg.vcpu {
        var ok := WriteVcpus(name, vcpu % 0x1_0000_0000);
        if !ok {
          return Some("update vm vcpu"), changed;
        }
        changed := true;
      }
      if ramMB != cfg.memoryMB {
        ghost var d := hv.domains[name].(memKiB := Mul64(ramMB, 1024));
        assert hv.domains[name := d] == before[name := d];
        var ok := WriteMemory(name, Mul64(ramMB, 1024));
        if !ok {
          return Some("update vm memory"), changed;
        }
        changed := true;
      }
      failure := None;
    }

    /** Shut a running domain down, by force if need be; a result ends the delete. */
    method StopIfRunning(name: string, force: bool) returns (r: Option<Result<OperationResult>>)
      modifies hv`domains, hv`history, hv`log, hv`refusals
      ensures old(hv.AlwaysFits()) ==> hv.AlwaysFits()
      ensures hv.domains == old(hv.domains) || hv.domains == old(hv.domains) - {name}
      ensures r.Some? && r.value.Ok? ==> !r.value.value.ok && !force
      ensures !force ==> Destroy(name) in hv.log ==> Destroy(name) in old(hv.log)
      ensures if r.Some? then hv.refusals > old(hv.refusals) else hv.refusals >= old(hv.refusals)
    {
      RemovalFits(hv.domains, name, hv.node);
      assert hv.domains - {name} - {name} == hv.domains - {name};
      var running := hv.IsRunning();
      if !running {
        return None;
      }
      var shut := hv.MayRemove(Shutdown(name));
      if !shut && !force {
        return Some(Err("shutdown vm"));
      }
      var stopped := hv.WaitStopped();
      if stopped {
        return None;
      }
      if !force {
        return Some(Ok(OperationResult(false, false, "vm still running, retry with force=true")));
      }
      var destroyed := hv.MayRemove(Destroy(name));
      r := if destroyed then None else Some(Err("destroy vm"));
    }

    /** Delete: only ever removes the named domain, and has removed it when it reports success. */
    method DeleteVM(rawName: string, force: bool) returns (r: Result<OperationResult>)
      modifies hv
      ensures old(hv.misread) <= hv.misread
      ensures old(hv.AlwaysFits()) ==> hv.AlwaysFits()
      ensures hv.domains == old(hv.domains) || hv.domains == old(hv.domains) - {TrimSpace(rawName)}
      ensures r.Ok? && r.value.ok ==> TrimSpace(rawName) !in hv.domains
      ensures r.Ok? && !r.value.ok ==> TrimSpace(rawName) == "" || !force
      ensures !force ==> Destroy(TrimSpace(rawName)) in hv.log ==> Destroy(TrimSpace(rawName)) in old(hv.log)
      ensures r.Err? || (!r.value.ok && TrimSpace(rawName) != "") ==> hv.refusals > old(hv.refusals)
    {
      var name := TrimSpace(rawName);
      if name == "" {
        return Ok(OperationResult(false, false, "vm name is required"));
      }
      var connected := hv.Reach();
      if !connected {
        return Err("connect");
      }
      var found := hv.LookupByName(name);
      if found.NotFound? {
        return Ok(OperationResult(true, false, "vm not found"));
      }
      if found.Failed? {
        return Err("lookup vm");
      }
      var cfg := hv.ReadConfig(name);
      if cfg == None {
        return Err("read vm config");
      }
      var stop := StopIfRunning(name, force);
      if stop.Some? {
        return stop.value;
      }
      var undefined := UndefineVM(name);
      r := if undefined then Ok(OperationResult(true, false, "vm deleted")) else Err("undefine vm");
    }

    /** Undefine with everything attached, or without. */
    method UndefineVM(name: string) returns (ok: bool)
      modifies hv`domains, hv`history, hv`log, hv`refusals
      ensures old(hv.AlwaysFits()) ==> hv.AlwaysFits()
      ensures hv.domains == old(hv.domains) || hv.domains == old(hv.domains) - {name}
      ensures ok ==> name !in hv.domains
      ensures hv.log == old(hv.log) + Acked(ok, Remove(name))
      ensures if ok then hv.refusals >= old(hv.refusals) else hv.refusals > old(hv.refusals)
    {
      RemovalFits(hv.domains, name, hv.node);
      assert hv.domains - {name} - {name} == hv.domains - {name};
      ok := hv.Undefine(name);
      if !ok {
        ok := hv.Undefine(name);
      }
    }

    /** Migrate: the named domain leaves or stays, nothing else changes. */
    method MigrateVM(rawName: string, rawURI: string, live: bool, allowOfflineFallback: bool)
      returns (r: Result<OperationResult>)
      modifies hv`domains, hv`history, hv`log, hv`refusals
      ensures old(hv.AlwaysFits()) ==> hv.AlwaysFits()
      ensures hv.domains == old(hv.domains) || hv.domains == old(hv.domains) - {TrimSpace(rawName)}
      ensures var name := TrimSpace(rawName);
              var migrated := Acked(r.Ok? && r.value.ok, Migrate(name));
              hv.log == old(hv.log) + migrated
              || (live && allowOfflineFallback && hv.log == old(hv.log) + [Shutdown(name)] + migrated)
      ensures r.Ok? && !r.value.ok ==> hv.domains == old(hv.domains)
      ensures if r.Err? then hv.refusals > old(hv.refusals) else hv.refusals >= old(hv.refusals)
    {
      var name := TrimSpace(rawName);
      if name == "" {
        return Ok(OperationResult(false, false, "vm name is required"));
      }
      if TrimSpace(rawURI) == "" {
        return Ok(OperationResult(false, false, "destination_uri is required"));
      }
      var connected := hv.Reach();
      if !connected {
        return Err("connect");
      }
      var found := hv.LookupByName(name);
      if found.NotFound? {
        return Ok(OperationResult(false, false, "vm not found"));
      }
      if found.Failed? {
        return Err("lookup vm");
      }
      var known := hv.Reach();
      if !known {
        return Err("read vm state");
      }
      var running := hv.IsRunning();
      var moved := MigrateAway(name, live && running && allowOfflineFallback);
      r := if moved then Ok(OperationResult(true, false, "vm migrated")) else Err("migrate vm");
    }

    /** Migrate a domain, and if that fails once more after shutting it down, where that is allowed. */
    method MigrateAway(name: string, fallback: bool) returns (ok: bool)
      modifies hv`domains, hv`history, hv`log, hv`refusals
      ensures old(hv.AlwaysFits()) ==> hv.AlwaysFits()
      ensures hv.domains == old(hv.domains) || hv.domains == old(hv.domains) - {name}
      ensures hv.log == old(hv.log) + Acked(ok, Migrate(name))
              || (fallback && hv.log == old(hv.log) + [Shutdown(name)] + Acked(ok, Migrate(name)))
      ensures if ok then hv.refusals >= old(hv.refusals) else hv.refusals > old(hv.refusals)
    {
      RemovalFits(hv.domains, name, hv.node);
      assert hv.domains - {name} - {name} == hv.domains - {name};
      ok := hv.MayRemove(Migrate(name));
      if !ok && fallback {
        var _ := hv.MayRemove(Shutdown(name));
        ok := hv.MayRemove(Migrate(name));
      }
    }

    /**
     Any run of requests, each finished before the next as the controller's mutex has it: unless a
     configuration could not be read, the ledger holds after every single hypervisor call, whatever
     else fails on the way.
     */
    method ServeAll(requests: seq<Request>)
      requires hv.AlwaysFits() && LegibleNames(hv.domains)
      requires forall i :: 0 <= i < |requests| ==> Moderate(requests[i], hv.node)
      modifies hv
      ensures LegibleNames(hv.domains) && old(hv.misread) <= hv.misread
      ensures hv.misread == old(hv.misread) ==> hv.AlwaysFits()
    {
      for i := 0 to |requests|
        invariant LegibleNames(hv.domains) && old(hv.misread) <= hv.misread
        invariant hv.misread == old(hv.misread) ==> hv.AlwaysFits()
      {
        Serve(requests[i]);
      }
    }

    lemma NothingSince(misread: seq<string>)
      ensures Since(misread, misread) == {}
    {
    }

    lemma ModerateCreate(ds: Domains, spec: CreateVMSpec, node: Node)
      requires Moderate(Create(spec), node)
      ensures Fits(ds, node) ==> NoWrap(ds, spec.vcpuCount, spec.ramMB)
    {
    }

    lemma ModerateUpdate(ds: Domains, name: string, spec: UpdateVMSpec, node: Node)
      requires Moderate(Update(spec), node)
      ensures Fits(ds, node) ==> Bounded(ds, name, spec)
    {
      if name in ds {
        TotalWithout(ds, name, VCPUOf);
        TotalWithout(ds, name, MemMBOf);
      }
    }

    method Serve(q: Request)
      requires LegibleNames(hv.domains) && Moderate(q, hv.node)
      modifies hv
      ensures LegibleNames(hv.domains) && old(hv.misread) <= hv.misread
      ensures old(hv.AlwaysFits()) && hv.misread == old(hv.misread) ==> hv.AlwaysFits()
    {
      match q {
        case Create(spec) =>
          LegibleHidesNothing(hv.domains, TrimSpace(spec.name), "");
          ModerateCreate(hv.domains, spec, hv.node);
          NothingSince(hv.misread);
          var _ := CreateVM(spec);
        case Update(spec) =>
          LegibleHidesNothing(hv.domains, TrimSpace(spec.name), TrimSpace(spec.name));
          ModerateUpdate(hv.domains, TrimSpace(spec.name), spec, hv.node);
          NothingSince(hv.misread);
          var _ := UpdateVM(spec);
        case Delete(name, force) =>
          var _ := DeleteVM(name, force);
        case MigrateTo(name, uri, live, fallback) =>
          var _ := MigrateVM(name, uri, live, fallback);
      }
    }
  }
}
