/**
 Capacity bookkeeping for internal/libvirt/vm/control.go: sums over the defined
 domains, and when an admission decision made on wrapping 64-bit sums is sound.
 */
module Ledger {
  import opened Wrappers

  datatype Domain = Domain(vcpu: u64, memKiB: u64)

  type Domains = map<string, Domain>

  function VCPUOf(d: Domain): nat {
    d.vcpu
  }

  function MemMBOf(d: Domain): nat {
    d.memKiB / 1024
  }

  function MemKiBOf(d: Domain): nat {
    d.memKiB
  }

  function MemRestOf(d: Domain): nat {
    d.memKiB % 1024
  }

  /** The sum of a quantity over all domains, in whatever order they are listed. */
  ghost function Total(ds: Domains, quantity: Domain -> nat): nat
    decreases |ds|
  {
    if ds == map[] then 0
    else
      var name :| name in ds;
      quantity(ds[name]) + Total(ds - {name}, quantity)
  }

  lemma {:induction false} TotalWithout(ds: Domains, name: string, quantity: Domain -> nat)
    requires name in ds
    ensures Total(ds, quantity) == quantity(ds[name]) + Total(ds - {name}, quantity)
    decreases |ds|
  {
    var first :| first in ds && Total(ds, quantity) == quantity(ds[first]) + Total(ds - {first}, quantity);
    if first != name {
      TotalWithout(ds - {first}, name, quantity);
      TotalWithout(ds - {name}, first, quantity);
      assert ds - {first} - {name} == ds - {name} - {first};
    }
  }

  lemma TotalUpdate(ds: Domains, name: string, d: Domain, quantity: Domain -> nat)
    ensures Total(ds[name := d], quantity) == quantity(d) + Total(ds - {name}, quantity)
  {
    TotalWithout(ds[name := d], name, quantity);
    assert ds[name := d] - {name} == ds - {name};
  }

  /** Total splits over any subset of the domains. */
  lemma {:induction false} TotalSplit(ds: Domains, names: set<string>, quantity: Domain -> nat)
    ensures Total(ds, quantity) == Total(ds - names, quantity) + Total(map n | n in ds && n in names :: ds[n], quantity)
    decreases |ds|
  {
    var part := map n | n in ds && n in names :: ds[n];
    if ds == map[] {
      assert ds - names == map[] && part == map[];
    } else {
      var name :| name in ds;
      TotalWithout(ds, name, quantity);
      TotalSplit(ds - {name}, names, quantity);
      var rest := map n | n in ds - {name} && n in names :: (ds - {name})[n];
      if name in names {
        TotalWithout(part, name, quantity);
        assert part - {name} == rest;
        assert ds - {name} - names == ds - names;
      } else {
        TotalWithout(ds - names, name, quantity);
        assert part == rest;
        assert (ds - names) - {name} == ds - {name} - names;
      }
    }
  }

  /** KiB are MiB times 1024 plus the remainders that rounding drops. */
  lemma {:induction false} RoundingGap(ds: Domains)
    ensures Total(ds, MemKiBOf) == 1024 * Total(ds, MemMBOf) + Total(ds, MemRestOf)
    ensures Total(ds, MemRestOf) <= 1023 * |ds|
    decreases |ds|
  {
    if ds != map[] {
      var name :| name in ds;
      TotalWithout(ds, name, MemKiBOf);
      TotalWithout(ds, name, MemMBOf);
      TotalWithout(ds, name, MemRestOf);
      RoundingGap(ds - {name});
      assert |ds| == |ds - {name}| + 1;
    }
  }

  // ---------------------------------------------------------------------------
  // Admission
  // ---------------------------------------------------------------------------

  /** The node: vCPUs and memory in KiB. */
  datatype Node = Node(vcpu: u64, memKiB: u64) {
    function RAMMB(): u64 {
      memKiB / 1024
    }
  }

  /** The ledger's invariant: summed vCPUs, and memory rounded per domain, within the node. */
  ghost predicate Fits(ds: Domains, node: Node) {
    && Total(ds, VCPUOf) <= node.vcpu
    && Total(ds, MemMBOf) <= node.RAMMB()
  }

  /** The comparisons checkAdmission makes, on sums that wrap around at 2^64. */
  predicate Admitted(usedVCPU: u64, usedRAMMB: u64, reqVCPU: u64, reqRAMMB: u64, node: Node) {
    && Add64(usedVCPU, reqVCPU) <= node.vcpu
    && Add64(usedRAMMB, reqRAMMB) <= node.RAMMB()
  }

  /** The ledger after writing one domain, from the sums over the others. */
  lemma FitsAfter(ds: Domains, name: string, d: Domain, node: Node)
    ensures Fits(ds[name := d], node)
            <==> Total(ds - {name}, VCPUOf) + d.vcpu <= node.vcpu
                 && Total(ds - {name}, MemMBOf) + d.memKiB / 1024 <= node.RAMMB()
  {
    TotalUpdate(ds, name, d, VCPUOf);
    TotalUpdate(ds, name, d, MemMBOf);
  }

  /** A request added to everything allocated stays below 2^64. */
  ghost predicate NoWrap(ds: Domains, vcpu: u64, ramMB: u64) {
    Total(ds, VCPUOf) + vcpu < TWO_64 && Total(ds, MemMBOf) + ramMB < TWO_64
  }

  /** Memory as it is stored: asked for in MiB, multiplied into KiB with wrap-around, counted in MiB again. */
  lemma StoredMB(ramMB: u64)
    ensures Mul64(ramMB, 1024) / 1024 == ramMB % TWO_54
    ensures ramMB < TWO_54 ==> Mul64(ramMB, 1024) == ramMB * 1024
  {
    var high, low := ramMB / TWO_54, ramMB % TWO_54;
    assert ramMB * 1024 == high * TWO_64 + low * 1024;
  }

  const TWO_54: int := 0x40_0000_0000_0000

  lemma StoredOrKept(d: Domain, ramMB: u64)
    requires d.memKiB == Mul64(ramMB, 1024) || d.memKiB / 1024 == ramMB
    ensures d.memKiB / 1024 == ramMB % TWO_54
  {
    StoredMB(ramMB);
  }

  lemma WrappedVCPU(used: nat, vcpu: u64, limit: u64)
    requires Add64(used % TWO_64, vcpu) <= limit && used <= limit
    ensures used + vcpu <= limit <==> used + vcpu < TWO_64
  {
  }

  /** What wrapped around on admission does not fit after it wrapped around again when stored. */
  lemma WrappedMemory(usedMB: nat, ramMB: u64, limitMB: nat)
    requires usedMB <= limitMB < TWO_54 && Add64(usedMB % TWO_64, ramMB) <= limitMB
    ensures usedMB + ramMB % TWO_54 <= limitMB <==> usedMB + ramMB < TWO_64
    ensures usedMB + ramMB < TWO_64 ==> ramMB < TWO_54
  {
    if usedMB + ramMB >= TWO_64 {
      var k := TWO_64 - ramMB;
      assert 0 < k <= usedMB && ramMB % TWO_54 == TWO_54 - k;
    }
  }

  /**
   Writing what an admission let through keeps the ledger within the node exactly when the true
   sums stay below 2^64. The amount stored may itself wrap around, which never saves a wrapped sum.
   */
  lemma AdmissionExact(ds: Domains, name: string, d: Domain, vcpu: u64, ramMB: u64, node: Node)
    requires Fits(ds - {name}, node)
    requires Admitted(Total(ds - {name}, VCPUOf) % TWO_64, Total(ds - {name}, MemMBOf) % TWO_64, vcpu, ramMB, node)
    requires d.vcpu == vcpu && (d.memKiB == Mul64(ramMB, 1024) || d.memKiB / 1024 == ramMB)
    ensures Fits(ds[name := d], node) <==> NoWrap(ds - {name}, vcpu, ramMB)
  {
    FitsAfter(ds, name, d, node);
    WrappedVCPU(Total(ds - {name}, VCPUOf), vcpu, node.vcpu);
    StoredOrKept(d, ramMB);
    WrappedMemory(Total(ds - {name}, MemMBOf), ramMB, node.RAMMB());
  }

  /**
   Writing an admitted domain keeps the ledger within the node, also when only one of its two
   values has been written so far.
   */
  lemma AdmittedWriteFits(ds: Domains, name: string, d: Domain, reqVCPU: u64, reqRAMMB: u64, node: Node)
    requires Fits(ds, node)
    requires Total(ds - {name}, VCPUOf) + reqVCPU <= node.vcpu
    requires Total(ds - {name}, MemMBOf) + reqRAMMB <= node.RAMMB()
    requires d.vcpu == reqVCPU || (name in ds && d.vcpu == ds[name].vcpu)
    requires d.memKiB / 1024 == reqRAMMB || (name in ds && d.memKiB == ds[name].memKiB)
    ensures Fits(ds[name := d], node)
  {
    TotalUpdate(ds, name, d, VCPUOf);
    TotalUpdate(ds, name, d, MemMBOf);
    if name in ds {
      TotalWithout(ds, name, VCPUOf);
      TotalWithout(ds, name, MemMBOf);
    }
  }

  /** Without wrapping around, what is compared on admission are the true sums. */
  lemma TrueSums(usedVCPU: nat, usedRAMMB: nat, reqVCPU: u64, reqRAMMB: u64, node: Node)
    requires Admitted(usedVCPU % TWO_64, usedRAMMB % TWO_64, reqVCPU, reqRAMMB, node)
    requires usedVCPU + reqVCPU < TWO_64 && usedRAMMB + reqRAMMB < TWO_64
    ensures usedVCPU + reqVCPU <= node.vcpu && usedRAMMB + reqRAMMB <= node.RAMMB()
  {
  }

  lemma RemovalFits(ds: Domains, name: string, node: Node)
    ensures Fits(ds, node) ==> Fits(ds - {name}, node)
  {
    if name in ds {
      TotalWithout(ds, name, VCPUOf);
      TotalWithout(ds, name, MemMBOf);
    } else {
      assert ds - {name} == ds;
    }
  }

  /**
   After an admitted create over n existing domains the true allocation exceeds the node by
   at most the 1023 KiB that rounding hides in each of them.
   */
  lemma CreateFloorBound(ds: Domains, name: string, vcpu: u64, ramMB: u64, node: Node)
    requires name !in ds && ramMB * 1024 < TWO_64
    requires Total(ds, MemMBOf) + ramMB <= node.RAMMB()
    ensures Total(ds[name := Domain(vcpu, ramMB * 1024)], MemKiBOf) <= node.memKiB + 1023 * |ds|
  {
    var d := Domain(vcpu, ramMB * 1024);
    TotalUpdate(ds, name, d, MemKiBOf);
    assert ds - {name} == ds;
    RoundingGap(ds);
  }

  /** The bound is met: n domains of one MiB and 1023 KiB each hide that much from a create that fills the node. */
  lemma FloorBoundTight(ds: Domains, name: string, vcpu: u64, ramMB: u64, node: Node)
    requires name !in ds && forall n :: n in ds ==> ds[n].memKiB == 2047
    requires ramMB * 1024 < TWO_64 && node.memKiB == 1024 * (|ds| + ramMB)
    ensures Total(ds, MemMBOf) + ramMB == node.RAMMB()
    ensures Total(ds[name := Domain(vcpu, ramMB * 1024)], MemKiBOf) == node.memKiB + 1023 * |ds|
  {
    TotalUpdate(ds, name, Domain(vcpu, ramMB * 1024), MemKiBOf);
    assert ds - {name} == ds;
    HalfHidden(ds);
  }

  lemma {:induction false} HalfHidden(ds: Domains)
    requires forall n :: n in ds ==> ds[n].memKiB == 2047
    ensures Total(ds, MemMBOf) == |ds| && Total(ds, MemKiBOf) == 2047 * |ds|
    decreases |ds|
  {
    if ds != map[] {
      var name :| name in ds;
      TotalWithout(ds, name, MemMBOf);
      TotalWithout(ds, name, MemKiBOf);
      assert |ds| == |ds - {name}| + 1;
      HalfHidden(ds - {name});
    }
  }
}
