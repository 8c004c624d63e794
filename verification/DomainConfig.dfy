/**
 Domain definitions as internal/libvirt/vm/control.go writes and reads them. The XML
 text itself is represented by the elements that are read back.
 */
module DomainConfig {
  import opened Wrappers
  import opened Text

  datatype MemoryXML = MemoryXML(unit: string, value: string)

  datatype DomainXML = DomainXML(
    name: string,
    memory: MemoryXML,
    currentMemory: MemoryXML,
    vcpu: string,
    diskFiles: seq<string>
  )

  datatype ParsedDomainConfig = ParsedDomainConfig(
    name: string,
    vcpu: u64,
    memoryMB: u64,
    diskFiles: seq<string>
  )

  function BuildDomainXML(name: string, vcpu: u32, ramMB: u64, diskPath: string): DomainXML {
    DomainXML(name, MemoryXML("MiB", FormatUint(ramMB)), MemoryXML("MiB", FormatUint(ramMB)),
              FormatUint(vcpu), [diskPath])
  }

  /** Memory in MiB, rounded down; an unknown unit reads as KiB and text that is no number as an error. */
  function ParseMemoryMB(value: string, unit: string): Option<u64> {
    var raw := TrimSpace(value);
    if raw == "" then Some(0)
    else
      var base := ParseUint(raw);
      if base == None then None
      else
        var u := ToLower(TrimSpace(unit));
        if u in ["", "k", "kb", "kib"] then Some(base.value / 1024)
        else if u in ["m", "mb", "mib"] then Some(base.value)
        else if u in ["g", "gb", "gib"] then Some(Mul64(base.value, 1024))
        else if u in ["b", "bytes"] then Some(base.value / (1024 * 1024))
        else Some(base.value / 1024)
  }

  /** The bytes of a unit, in lower case; one that is not known counts as KiB. */
  function UnitBytes(unit: string): nat {
    if unit in ["b", "bytes"] then 1
    else if unit in ["m", "mb", "mib"] then 0x10_0000
    else if unit in ["g", "gb", "gib"] then 0x4000_0000
    else 0x400
  }

  /** Whatever the unit, in any case and with white space around it, the result is that many whole MiB. */
  lemma MemoryInBytes(value: string, n: u64, unit: string)
    requires ParseUint(TrimSpace(value)) == Some(n)
    ensures var mib := n * UnitBytes(ToLower(TrimSpace(unit))) / 0x10_0000;
            mib < TWO_64 ==> ParseMemoryMB(value, unit) == Some(mib)
  {
    assert TrimSpace(value) != "";
    assert n * 0x400 / 0x10_0000 == n / 1024;
    assert n * 0x4000_0000 / 0x10_0000 == n * 1024;
  }

  lemma MemoryAbsent(value: string, unit: string)
    ensures TrimSpace(value) == "" ==> ParseMemoryMB(value, unit) == Some(0)
    ensures TrimSpace(value) != "" && ParseUint(TrimSpace(value)) == None ==> ParseMemoryMB(value, unit) == None
  {
  }

  function OrZero(n: Option<u64>): u64 {
    if n == None then 0 else n.value
  }

  function ParseUintDefault(v: string, fallback: u64): u64 {
    var raw := TrimSpace(v);
    if raw == "" then fallback
    else
      var n := ParseUint(raw);
      if n == None then fallback else n.value
  }

  function Kept(file: string): seq<string> {
    if TrimSpace(file) != "" then [TrimSpace(file)] else []
  }

  /** The non-blank disk paths, trimmed. */
  function DiskFiles(files: seq<string>): seq<string> {
    if files == [] then [] else DiskFiles(files[..|files| - 1]) + Kept(files[|files| - 1])
  }

  /** The paths that are not blank, trimmed and in order: the k-th comes from the k-th file that is not blank. */
  ghost predicate Extracted(files: seq<string>, disks: seq<string>)
    decreases |files|
  {
    if files == [] then disks == []
    else if TrimSpace(files[0]) == "" then Extracted(files[1..], disks)
    else disks != [] && disks[0] == TrimSpace(files[0]) && Extracted(files[1..], disks[1..])
  }

  lemma {:induction false} DiskFilesExtracted(files: seq<string>)
    ensures Extracted(files, DiskFiles(files))
    decreases |files|
  {
    if files != [] {
      var rest := DiskFiles(files[1..]);
      DiskFilesFirst(files[0], files[1..]);
      assert files == [files[0]] + files[1..];
      assert [] + rest == rest && ([TrimSpace(files[0])] + rest)[1..] == rest;
      DiskFilesExtracted(files[1..]);
    }
  }

  lemma DiskFilesLast(files: seq<string>, file: string)
    ensures DiskFiles(files + [file]) == DiskFiles(files) + Kept(file)
  {
    assert (files + [file])[..|files|] == files;
  }

  lemma {:induction false} DiskFilesFirst(file: string, files: seq<string>)
    ensures DiskFiles([file] + files) == Kept(file) + DiskFiles(files)
    decreases |files|
  {
    if files == [] {
      DiskFilesLast([], file);
      assert [file] + files == [] + [file];
    } else {
      var n := |files| - 1;
      DiskFilesFirst(file, files[..n]);
      DiskFilesStep(file, files[..n], files[n]);
      assert files == files[..n] + [files[n]];
    }
  }

  lemma DiskFilesStep(file: string, front: seq<string>, last: string)
    requires DiskFiles([file] + front) == Kept(file) + DiskFiles(front)
    ensures DiskFiles([file] + (front + [last])) == Kept(file) + DiskFiles(front + [last])
  {
    calc {
      DiskFiles([file] + (front + [last]));
    ==  { assert [file] + (front + [last]) == ([file] + front) + [last]; }
      DiskFiles(([file] + front) + [last]);
    ==  { DiskFilesLast([file] + front, last); }
      DiskFiles([file] + front) + Kept(last);
    ==
      (Kept(file) + DiskFiles(front)) + Kept(last);
    ==  { Regroup(Kept(file), DiskFiles(front), Kept(last)); }
      Kept(file) + (DiskFiles(front) + Kept(last));
    ==  { DiskFilesLast(front, last); }
      Kept(file) + DiskFiles(front + [last]);
    }
  }

  lemma Regroup(a: seq<string>, b: seq<string>, c: seq<string>)
    ensures (a + b) + c == a + (b + c)
  {
  }

  function MemoryMBOf(d: DomainXML): u64 {
    var mem := OrZero(ParseMemoryMB(d.memory.value, d.memory.unit));
    if mem != 0 then mem else OrZero(ParseMemoryMB(d.currentMemory.value, d.currentMemory.unit))
  }

  function ConfigOf(d: DomainXML, domName: string): ParsedDomainConfig {
    var name := TrimSpace(d.name);
    ParsedDomainConfig(if name != "" then name else TrimSpace(domName),
                       ParseUintDefault(d.vcpu, 0), MemoryMBOf(d), DiskFiles(d.diskFiles))
  }

  method CollectDisks(files: seq<string>) returns (disks: seq<string>)
    ensures disks == DiskFiles(files) && Extracted(files, disks)
  {
    DiskFilesExtracted(files);
    disks := [];
    for i := 0 to |files|
      invariant disks == DiskFiles(files[..i])
    {
      assert files[..i + 1][..i] == files[..i];
      if TrimSpace(files[i]) != "" {
        disks := disks + [TrimSpace(files[i])];
      }
    }
    assert files[..|files|] == files;
  }

  method ReadDomainConfig(d: DomainXML, domName: string) returns (cfg: ParsedDomainConfig)
    ensures cfg == ConfigOf(d, domName)
    ensures var first := ParseMemoryMB(d.memory.value, d.memory.unit);
            var second := ParseMemoryMB(d.currentMemory.value, d.currentMemory.unit);
            if first.Some? && first.value > 0 then cfg.memoryMB == first.value
            else if second.Some? then cfg.memoryMB == second.value
            else cfg.memoryMB == 0
    ensures var vcpu := ParseUint(TrimSpace(d.vcpu));
            cfg.vcpu == if vcpu.Some? then vcpu.value else 0
    ensures cfg.name == if TrimSpace(d.name) != "" then TrimSpace(d.name) else TrimSpace(domName)
    ensures Extracted(d.diskFiles, cfg.diskFiles)
  {
    var memMB := OrZero(ParseMemoryMB(d.memory.value, d.memory.unit));
    if memMB == 0 {
      memMB := OrZero(ParseMemoryMB(d.currentMemory.value, d.currentMemory.unit));
    }
    var disks := CollectDisks(d.diskFiles);
    var name := TrimSpace(d.name);
    if name == "" {
      name := TrimSpace(domName);
    }
    cfg := ParsedDomainConfig(name, ParseUintDefault(d.vcpu, 0), memMB, disks);
  }

  lemma NumberReadsBack(n: nat, unit: string)
    ensures ParseMemoryMB(FormatUint(n), "MiB") == if n < TWO_64 then Some(n) else None
    ensures ParseMemoryMB(FormatUint(n), "KiB") == if n < TWO_64 then Some(n / 1024) else None
    ensures n < TWO_64 ==> ParseUintDefault(FormatUint(n), 0) == n
  {
    FormatUintTrimmed(n);
    ParseUintFormat(n);
    TrimSpaceTrims("MiB");
    TrimSpaceTrims("KiB");
    assert ToLower("MiB") == "mib" && ToLower("KiB") == "kib";
  }

  /**
   Reading the definition built for a validated request gives the request back: its trimmed
   name, vCPU count, memory in MiB and its one disk path.
   */
  lemma BuildReadsBack(name: string, vcpu: u32, ramMB: u64, diskPath: string, domName: string)
    requires TrimSpace(name) != "" && ramMB > 0 && TrimSpace(diskPath) != ""
    ensures ConfigOf(BuildDomainXML(name, vcpu, ramMB, diskPath), domName)
            == ParsedDomainConfig(TrimSpace(name), vcpu, ramMB, [TrimSpace(diskPath)])
  {
    NumberReadsBack(ramMB, "MiB");
    NumberReadsBack(vcpu, "");
    assert DiskFiles([diskPath]) == DiskFiles([diskPath][..0]) + [TrimSpace(diskPath)];
  }

  /** The definition as libvirt stores and returns it: memory in KiB. */
  function Normalised(name: string, vcpu: u64, memKiB: nat, diskFiles: seq<string>): DomainXML {
    DomainXML(name, MemoryXML("KiB", FormatUint(memKiB)), MemoryXML("KiB", FormatUint(memKiB)),
              FormatUint(vcpu), diskFiles)
  }

  /** What is read from a stored domain: memory rounded down to MiB, or zero beyond 64 bits. */
  lemma NormalisedReadsBack(name: string, vcpu: u64, memKiB: nat, diskFiles: seq<string>, domName: string)
    requires TrimSpace(name) != ""
    ensures ConfigOf(Normalised(name, vcpu, memKiB, diskFiles), domName)
            == ParsedDomainConfig(TrimSpace(name), vcpu, if memKiB < TWO_64 then memKiB / 1024 else 0,
                                  DiskFiles(diskFiles))
  {
    NumberReadsBack(memKiB, "KiB");
    NumberReadsBack(vcpu, "");
  }

  /** A request normalised to KiB reads back as it was made exactly when its KiB count fits 64 bits. */
  lemma NormalisedRequestReadsBack(name: string, vcpu: u32, ramMB: u64, diskPath: string, domName: string)
    requires TrimSpace(name) != "" && ramMB > 0 && TrimSpace(diskPath) != ""
    ensures ConfigOf(Normalised(name, vcpu, ramMB * 1024, [diskPath]), domName)
            == ConfigOf(BuildDomainXML(name, vcpu, ramMB, diskPath), domName)
            <==> ramMB * 1024 < TWO_64
  {
    NormalisedReadsBack(name, vcpu, ramMB * 1024, [diskPath], domName);
    BuildReadsBack(name, vcpu, ramMB, diskPath, domName);
    assert DiskFiles([diskPath]) == DiskFiles([diskPath][..0]) + [TrimSpace(diskPath)];
  }
}
