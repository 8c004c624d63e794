/** The parser for dmidecode's memory report in internal/libvirt/metric/node/ram_linux.go. */
module Dmidecode {
  import opened Wrappers
  import opened Text

  /**
   What Go's float parser makes of a text, and what its conversion to uint64 makes of a number
   that does not fit, which the language leaves to the implementation.
   */
  datatype Platform = Platform(parseFloat: string -> Option<real>, wide: real -> u64)

  function ToU64(env: Platform, x: real): (n: u64)
    ensures 0.0 <= x < TWO_64 as real ==> n as real <= x < (n + 1) as real
  {
    if 0.0 <= x < TWO_64 as real then x.Floor else env.wide(x)
  }

  const KIB := 1024.0

  function ParseMemorySizeToBytes(env: Platform, raw: string): u64 {
    var value := ToLower(TrimSpace(raw));
    if value == "" || Contains(value, "no module installed") || Contains(value, "not installed")
       || Contains(value, "unknown") then 0
    else
      var parts := Fields(value);
      if |parts| < 2 then 0
      else
        var number := env.parseFloat(parts[0]);
        if number == None || number.value <= 0.0 then 0
        else if parts[1] in ["kb", "kib"] then ToU64(env, number.value * KIB)
        else if parts[1] in ["mb", "mib"] then ToU64(env, number.value * KIB * KIB)
        else if parts[1] in ["gb", "gib"] then ToU64(env, number.value * KIB * KIB * KIB)
        else if parts[1] in ["tb", "tib"] then ToU64(env, number.value * KIB * KIB * KIB * KIB)
        else 0
  }

  function ParseSpeedToMHz(env: Platform, raw: string): u64 {
    var value := ToLower(TrimSpace(raw));
    if value == "" || Contains(value, "unknown") then 0
    else
      var parts := Fields(value);
      if |parts| == 0 then 0
      else
        var number := env.parseFloat(parts[0]);
        if number == None || number.value <= 0.0 then 0 else ToU64(env, number.value)
  }

  // What the texts of a report come to.

  /** A number as dmidecode prints one. */
  predicate Numeral(s: string) {
    s != "" && forall c | c in s :: c in "0123456789."
  }

  /** Bytes per unit. */
  function UnitBytes(unit: string): real {
    if unit in ["kB", "KB", "KiB"] then 1024.0
    else if unit in ["MB", "MiB"] then 1_048_576.0
    else if unit in ["GB", "GiB"] then 1_073_741_824.0
    else if unit in ["TB", "TiB"] then 1_099_511_627_776.0
    else 0.0
  }

  lemma NumeralPlain(s: string)
    requires Numeral(s)
    ensures NoSpace(s) && ToLower(s) == s && forall c | c in s :: c !in "nu"
  {
    forall i | 0 <= i < |s|
      ensures '.' <= s[i] <= '9' && s[i] !in "nu" && !IsSpace(s[i]) && ToLower(s)[i] == s[i]
    {
      assert s[i] in s;
      NumeralChar(s[i]);
    }
  }

  lemma NumeralChar(c: char)
    requires c in "0123456789."
    ensures '.' <= c <= '9' && c !in "nu"
  {
  }

  /** A number and a word after it, in any case, are taken apart as written. */
  lemma NumberAndUnit(number: string, unit: string, lower: string)
    requires Numeral(number) && unit != "" && NoSpace(unit) && NoSpace(lower) && ToLower(unit) == lower
    requires forall c | c in lower :: c !in "nu"
    ensures var value := ToLower(TrimSpace(number + " " + unit));
            && Fields(value) == [number, lower] && value != ""
            && forall c | c in value :: c !in "nu"
  {
    var raw := number + " " + unit;
    NumeralPlain(number);
    assert raw[0] == number[0] && raw[|raw| - 1] == unit[|unit| - 1];
    TrimSpaceTrims(raw);
    LowerConcat(number + " ", unit);
    LowerConcat(number, " ");
    assert ToLower(" ") == " ";
    FieldsNext(number, ' ', lower);
    FieldsLast(lower);
  }

  predicate KnownUnit(unit: string) {
    unit in ["kB", "KB", "MB", "GB", "TB"] || unit in ["KiB", "MiB", "GiB", "TiB"]
  }

  /** A size is its number times the bytes of its unit; a number that is not positive is no size. */
  lemma SizeInBytes(env: Platform, number: string, unit: string)
    requires Numeral(number) && KnownUnit(unit)
    ensures var x := env.parseFloat(number);
            ParseMemorySizeToBytes(env, number + " " + unit) ==
            if x == None || x.value <= 0.0 then 0 else ToU64(env, x.value * UnitBytes(unit))
  {
    LowerUnits(unit);
    SizeOfUnit(env, number, unit, ToLower(unit));
  }

  lemma SizeOfUnit(env: Platform, number: string, unit: string, lower: string)
    requires Numeral(number) && UnitOf(unit, lower)
    ensures var x := env.parseFloat(number);
            ParseMemorySizeToBytes(env, number + " " + unit) ==
            if x == None || x.value <= 0.0 then 0 else ToU64(env, x.value * UnitBytes(unit))
  {
    SizeWithUnit(env, number, unit, lower);
  }

  lemma SizeWithUnit(env: Platform, number: string, unit: string, lower: string)
    requires Numeral(number) && unit != "" && NoSpace(unit) && NoSpace(lower) && ToLower(unit) == lower
    requires LowerBytes(lower) > 0.0 && forall c | c in lower :: c !in "nu"
    ensures var x := env.parseFloat(number);
            ParseMemorySizeToBytes(env, number + " " + unit) ==
            if x == None || x.value <= 0.0 then 0 else ToU64(env, x.value * LowerBytes(lower))
  {
    NumberAndUnit(number, unit, lower);
    SizeOfFields(env, number + " " + unit, number, lower);
  }

  /** A unit's lower case, in the terms of the parser. */
  predicate UnitOf(unit: string, lower: string) {
    && ToLower(unit) == lower && unit != "" && NoSpace(unit) && NoSpace(lower)
    && (forall c | c in lower :: c !in "nu")
    && UnitBytes(unit) == LowerBytes(lower) > 0.0
  }

  lemma LowerUnits(unit: string)
    requires KnownUnit(unit)
    ensures UnitOf(unit, ToLower(unit))
  {
    if unit in ["kB", "KB", "MB", "GB", "TB"] {
      ShortUnit(unit);
    } else {
      LongUnit(unit);
    }
  }

  lemma ShortUnit(unit: string)
    requires unit in ["kB", "KB", "MB", "GB", "TB"]
    ensures UnitOf(unit, ToLower(unit))
  {
    assert unit == [unit[0], 'B'];
    assert ToLower(unit) == [ToLower(unit)[0], 'b'];
  }

  lemma LongUnit(unit: string)
    requires unit in ["KiB", "MiB", "GiB", "TiB"]
    ensures UnitOf(unit, ToLower(unit))
  {
    assert unit == [unit[0], 'i', 'B'];
    assert ToLower(unit) == [ToLower(unit)[0], 'i', 'b'];
  }

  function LowerBytes(lower: string): real {
    if lower in ["kb", "kib"] then 1024.0
    else if lower in ["mb", "mib"] then 1_048_576.0
    else if lower in ["gb", "gib"] then 1_073_741_824.0
    else if lower in ["tb", "tib"] then 1_099_511_627_776.0
    else 0.0
  }

  lemma SizeOfFields(env: Platform, raw: string, number: string, lower: string)
    requires var value := ToLower(TrimSpace(raw));
             Fields(value) == [number, lower] && value != "" && forall c | c in value :: c !in "nu"
    requires LowerBytes(lower) > 0.0
    ensures var x := env.parseFloat(number);
            ParseMemorySizeToBytes(env, raw) ==
            if x == None || x.value <= 0.0 then 0 else ToU64(env, x.value * LowerBytes(lower))
  {
    var value := ToLower(TrimSpace(raw));
    ContainsFirst(value, "no module installed");
    ContainsFirst(value, "not installed");
    ContainsFirst(value, "unknown");
  }

  /** An empty slot, or one that says nothing, has no size. */
  lemma NoModule(env: Platform)
    ensures ParseMemorySizeToBytes(env, "No Module Installed") == 0 && ParseMemorySizeToBytes(env, "") == 0
  {
    InstalledLower("No Module ", "no module ", "No Module Installed", "no module installed");
    NoSizeIn(env, "No Module Installed", "no module installed");
  }

  lemma NotInstalled(env: Platform)
    ensures ParseMemorySizeToBytes(env, "Not Installed") == 0
  {
    InstalledLower("Not ", "not ", "Not Installed", "not installed");
    NoSizeIn(env, "Not Installed", "not installed");
  }

  lemma InstalledLower(text: string, lower: string, whole: string, wholeLower: string)
    requires ToLower(text) == lower && whole == text + "Installed" && wholeLower == lower + "installed"
    ensures ToLower(whole) == wholeLower
  {
    LowerConcat(text, "Installed");
    assert ToLower("Installed") == "installed";
  }

  lemma NoSizeIn(env: Platform, raw: string, lower: string)
    requires Trimmed(raw) && ToLower(raw) == lower && lower in ["no module installed", "not installed", "unknown"]
    ensures ParseMemorySizeToBytes(env, raw) == 0
  {
    TrimSpaceTrims(raw);
    ContainsExact(lower, lower);
    assert lower <= lower[0..];
  }

  lemma UnknownSize(env: Platform)
    ensures ParseMemorySizeToBytes(env, "Unknown") == 0
  {
    TrimSpaceTrims("Unknown");
    assert ToLower("Unknown") == "unknown";
  }

  /** A number without a unit is no size. */
  lemma NoUnit(env: Platform, number: string)
    requires Numeral(number)
    ensures ParseMemorySizeToBytes(env, number) == 0
  {
    NumeralPlain(number);
    TrimSpaceTrims(number);
    FieldsLast(number);
  }

  /** A speed is its number, whatever unit follows. */
  lemma SpeedInMHz(env: Platform, number: string, unit: string)
    requires Numeral(number) && unit in ["MHz", "MT/s"]
    ensures var x := env.parseFloat(number);
            ParseSpeedToMHz(env, number + " " + unit) ==
            if x == None || x.value <= 0.0 then 0 else ToU64(env, x.value)
  {
    if unit == "MHz" {
      assert ToLower("MHz") == "mhz";
      NumberAndUnit(number, unit, "mhz");
    } else {
      assert ToLower("MT/s") == "mt/s";
      NumberAndUnit(number, unit, "mt/s");
    }
    ContainsFirst(ToLower(TrimSpace(number + " " + unit)), "unknown");
  }

  lemma UnknownSpeed(env: Platform)
    ensures ParseSpeedToMHz(env, "Unknown") == 0 && ParseSpeedToMHz(env, "") == 0
  {
    TrimSpaceTrims("Unknown");
    assert ToLower("Unknown") == "unknown";
  }

  // ---------------------------------------------------------------------------
  // Lines, modules and the information collected
  // ---------------------------------------------------------------------------

  datatype Line =
    | Blank
    | ArrayHeader
    | DeviceHeader
    | ErrorCorrection(enabled: bool)
    | Property(key: string, value: string)
    | Other

  const ECC_PREFIX: string := "Error Correction Type:"

  function Classify(raw: string): Line {
    var line := TrimSpace(raw);
    if line == "" then Blank
    else if HasPrefix(line, "Physical Memory Array") then ArrayHeader
    else if HasPrefix(line, "Memory Device") then DeviceHeader
    else if HasPrefix(line, ECC_PREFIX) then
      var value := ToLower(TrimSpace(line[|ECC_PREFIX|..]));
      ErrorCorrection(value != "" && value != "none" && value != "unknown")
    else
      var parts := Cut(line, ':');
      if parts == None then Other else Property(TrimSpace(parts.value.0), TrimSpace(parts.value.1))
  }

  predicate SplitAtColon(text: string, before: string, after: string) {
    text == before + ":" + after && ':' !in before
  }

  /** The kinds of line, by how their trimmed text begins; a property is split at its first colon. */
  lemma LineKinds(raw: string)
    ensures var text, line := TrimSpace(raw), Classify(raw);
            && (line.ArrayHeader? <==> "Physical Memory Array" <= text)
            && (line.DeviceHeader? <==> "Memory Device" <= text)
            && (line.ErrorCorrection? <==> "Error Correction Type:" <= text)
            && (line == ErrorCorrection(true) <==>
                  "Error Correction Type:" <= text && ToLower(TrimSpace(text[22..])) !in ["", "none", "unknown"])
            && (line.Property? ==>
                  exists before, after :: SplitAtColon(text, before, after)
                                          && line == Property(TrimSpace(before), TrimSpace(after)))
            && (line == Blank <==> text == "")
            && (line == Other ==> ':' !in text)
  {
    var text := TrimSpace(raw);
    assert "Physical Memory Array" <= text ==> text[0] == 'P';
    assert "Memory Device" <= text ==> text[0] == 'M';
    assert "Error Correction Type:" <= text ==> text[0] == 'E';
    if Classify(raw).Property? {
      var parts := Cut(text, ':').value;
      assert SplitAtColon(text, parts.0, parts.1);
    }
  }

  datatype Module = Module(
    slot: string, sizeBytes: u64, speedMhz: u64, kind: string, model: string,
    manufacturer: string, partNumber: string, serial: string)

  const EMPTY := Module("", 0, 0, "", "", "", "", "")

  function SetProperty(env: Platform, m: Module, key: string, value: string): Module {
    if key == "Size" then m.(sizeBytes := ParseMemorySizeToBytes(env, value))
    else if key == "Locator" then m.(slot := value)
    else if key == "Bank Locator" then (if m.slot == "" then m.(slot := value) else m)
    else if key == "Speed" then m.(speedMhz := ParseSpeedToMHz(env, value))
    else if key == "Configured Memory Speed" then
      (if m.speedMhz == 0 then m.(speedMhz := ParseSpeedToMHz(env, value)) else m)
    else if key == "Type" then m.(kind := value)
    else if key == "Part Number" then
      m.(partNumber := value, model := if m.model == "" then value else m.model)
    else if key == "Manufacturer" then m.(manufacturer := value)
    else if key == "Serial Number" then m.(serial := value)
    else m
  }

  /** What a property leaves in each field: which keys decide it, and which only fill it. */
  lemma PropertyFields(env: Platform, m: Module, key: string, value: string)
    ensures var after := SetProperty(env, m, key, value);
            && after.sizeBytes == (if key == "Size" then ParseMemorySizeToBytes(env, value) else m.sizeBytes)
            && after.slot == (if key == "Locator" || (key == "Bank Locator" && m.slot == "") then value else m.slot)
            && after.speedMhz == (if key == "Speed" || (key == "Configured Memory Speed" && m.speedMhz == 0)
                                  then ParseSpeedToMHz(env, value) else m.speedMhz)
            && after.kind == (if key == "Type" then value else m.kind)
            && after.partNumber == (if key == "Part Number" then value else m.partNumber)
            && after.model == (if key == "Part Number" && m.model == "" then value else m.model)
            && after.manufacturer == (if key == "Manufacturer" then value else m.manufacturer)
            && after.serial == (if key == "Serial Number" then value else m.serial)
  {
  }

  function Refine(env: Platform, m: Module, line: Line): Module {
    if line.Property? then SetProperty(env, m, line.key, line.value) else m
  }

  datatype Info = Info(
    stickSlot: seq<string>, stickSizeBytes: seq<u64>, stickSpeedMhz: seq<u64>, stickType: seq<string>,
    stickModel: seq<string>, stickManufacturer: seq<string>, stickPartNumber: seq<string>,
    stickSerial: seq<string>, totalPhysicalBytes: u64, stickCount: nat, eccEnabled: bool)

  /** One row of the parallel arrays. */
  datatype Stick = Stick(
    slot: string, sizeBytes: u64, speedMhz: u64, kind: string, model: string,
    manufacturer: string, partNumber: string, serial: string)

  /** How the module in a position is reported: missing texts get a default, the slot one with its number. */
  function Report(m: Module, position: nat): Stick {
    Stick(
      FirstNonEmpty([m.slot, "slot-" + FormatUint(position)]),
      m.sizeBytes,
      m.speedMhz,
      FirstNonEmpty([m.kind, "unknown"]),
      FirstNonEmpty([m.model, m.partNumber, "unknown"]),
      FirstNonEmpty([m.manufacturer, "unknown"]),
      FirstNonEmpty([m.partNumber, "unknown"]),
      FirstNonEmpty([m.serial, "unknown"]))
  }

  /** A text that is not blank is reported trimmed, a blank one by its default. */
  predicate Reported(shown: string, text: string, default: string) {
    shown == if TrimSpace(text) != "" then TrimSpace(text) else default
  }

  lemma ReportFields(m: Module, position: nat)
    ensures var row := Report(m, position);
            && Reported(row.slot, m.slot, "slot-" + FormatUint(position))
            && row.sizeBytes == m.sizeBytes && row.speedMhz == m.speedMhz
            && Reported(row.kind, m.kind, "unknown")
            && (if TrimSpace(m.model) != "" then row.model == TrimSpace(m.model)
                else Reported(row.model, m.partNumber, "unknown"))
            && Reported(row.manufacturer, m.manufacturer, "unknown")
            && Reported(row.partNumber, m.partNumber, "unknown")
            && Reported(row.serial, m.serial, "unknown")
  {
    SlotNumberTrimmed(position);
    FirstOrDefault(m.slot, "slot-" + FormatUint(position));
    FirstOrUnknown(m.kind);
    FirstOrUnknown(m.manufacturer);
    FirstOrUnknown(m.partNumber);
    FirstOrUnknown(m.serial);
    ModelOrPart(m.model, m.partNumber);
  }

  lemma ModelOrPart(model: string, partNumber: string)
    ensures FirstNonEmpty([model, partNumber, "unknown"])
            == if TrimSpace(model) != "" then TrimSpace(model) else FirstNonEmpty([partNumber, "unknown"])
  {
    assert [model, partNumber, "unknown"][1..] == [partNumber, "unknown"];
  }

  lemma FirstOrUnknown(text: string)
    ensures Reported(FirstNonEmpty([text, "unknown"]), text, "unknown")
  {
    FirstOrDefault(text, "unknown");
    TrimSpaceTrims("unknown");
  }

  lemma FirstOrDefault(text: string, default: string)
    ensures FirstNonEmpty([text, default]) == if TrimSpace(text) != "" then TrimSpace(text) else TrimSpace(default)
  {
    assert [text, default][1..] == [default] && [default][1..] == [];
    assert FirstNonEmpty([default]) == TrimSpace(default);
  }

  lemma SlotNumberTrimmed(position: nat)
    ensures TrimSpace("slot-" + FormatUint(position)) == "slot-" + FormatUint(position)
  {
    var s := "slot-" + FormatUint(position);
    assert IsDigit(s[|s| - 1]);
    TrimSpaceTrims(s);
  }

  ghost predicate Columns(info: Info, n: nat) {
    && |info.stickSlot| == |info.stickSizeBytes| == |info.stickSpeedMhz| == |info.stickType| == n
    && |info.stickModel| == |info.stickManufacturer| == |info.stickPartNumber| == |info.stickSerial| == n
  }

  ghost function Row(info: Info, i: nat): Stick
    requires Columns(info, |info.stickSlot|) && i < |info.stickSlot|
  {
    Stick(info.stickSlot[i], info.stickSizeBytes[i], info.stickSpeedMhz[i], info.stickType[i],
          info.stickModel[i], info.stickManufacturer[i], info.stickPartNumber[i], info.stickSerial[i])
  }

  function Reports(sticks: seq<Module>): (r: seq<Stick>)
    ensures |r| == |sticks|
  {
    seq(|sticks|, i requires 0 <= i < |sticks| => Report(sticks[i], i))
  }

  /** The parallel arrays hold these rows, position by position, and nothing else. */
  ghost predicate Holds(info: Info, rows: seq<Stick>) {
    && Columns(info, |rows|)
    && info.totalPhysicalBytes == Sum(info.stickSizeBytes) % TWO_64
    && (forall i :: 0 <= i < |rows| ==> Row(info, i) == rows[i])
  }

  // ---------------------------------------------------------------------------
  // What a report says: its sections
  // ---------------------------------------------------------------------------

  function Lines(raw: string): seq<Line> {
    var pieces := Split(raw, '\n');
    seq(|pieces|, i requires 0 <= i < |pieces| => Classify(pieces[i]))
  }

  /** The length of a section's body: up to the next header or the end. */
  function BodyLength(lines: seq<Line>): (n: nat)
    ensures n <= |lines|
    ensures n < |lines| ==> lines[n].ArrayHeader? || lines[n].DeviceHeader?
    ensures forall i :: 0 <= i < n ==> !lines[i].ArrayHeader? && !lines[i].DeviceHeader?
  {
    if lines == [] || lines[0].ArrayHeader? || lines[0].DeviceHeader? then 0
    else 1 + BodyLength(lines[1..])
  }

  /** A module refined by every line of a body in turn. */
  function RefineAll(env: Platform, m: Module, body: seq<Line>): Module
    decreases body
  {
    if body == [] then m else RefineAll(env, Refine(env, m, body[0]), body[1..])
  }

  function IfSized(m: Module): seq<Module> {
    if m.sizeBytes == 0 then [] else [m]
  }

  /**
   The stick of the section that begins here with a module so far: none if an array header
   closes it or its final size is zero.
   */
  function SectionStick(env: Platform, m: Module, lines: seq<Line>): seq<Module> {
    var n := BodyLength(lines);
    if n < |lines| && lines[n].ArrayHeader? then [] else IfSized(RefineAll(env, m, lines[..n]))
  }

  /** The sticks of a report: one for each Memory Device header, in order, if its section yields one. */
  function Sticks(env: Platform, lines: seq<Line>): seq<Module> {
    if lines == [] then []
    else
      (if lines[0].DeviceHeader? then SectionStick(env, EMPTY, lines[1..]) else [])
      + Sticks(env, lines[1..])
  }

  /** The size of a section is that of its last Size line. */
  lemma {:induction false} FinalSize(env: Platform, m: Module, body: seq<Line>, i: nat)
    requires i < |body| && body[i].Property? && body[i].key == "Size"
    requires forall j :: i < j < |body| ==> !(body[j].Property? && body[j].key == "Size")
    ensures RefineAll(env, m, body).sizeBytes == ParseMemorySizeToBytes(env, body[i].value)
    decreases body
  {
    if i > 0 {
      FinalSize(env, Refine(env, m, body[0]), body[1..], i - 1);
    } else {
      SizeKept(env, Refine(env, m, body[0]), body[1..]);
    }
  }

  lemma {:induction false} SizeKept(env: Platform, m: Module, body: seq<Line>)
    requires forall j :: 0 <= j < |body| ==> !(body[j].Property? && body[j].key == "Size")
    ensures RefineAll(env, m, body).sizeBytes == m.sizeBytes
    decreases body
  {
    if body != [] {
      SizeKept(env, Refine(env, m, body[0]), body[1..]);
    }
  }

  predicate IsHeader(line: Line) {
    line.ArrayHeader? || line.DeviceHeader?
  }

  predicate NoHeader(body: seq<Line>) {
    forall i :: 0 <= i < |body| ==> !IsHeader(body[i])
  }

  /**
   A device header opens a section that ends at the next header or with the report. It yields the
   module its lines describe if it has a size, unless an array header ended it.
   */
  lemma SectionYields(env: Platform, body: seq<Line>, tail: seq<Line>)
    requires NoHeader(body) && (tail != [] ==> IsHeader(tail[0]))
    ensures var m := RefineAll(env, EMPTY, body);
            Sticks(env, [DeviceHeader] + (body + tail)) ==
            (if m.sizeBytes > 0 && (tail == [] || tail[0].DeviceHeader?) then [m] else []) + Sticks(env, tail)
  {
    var lines := [DeviceHeader] + (body + tail);
    assert lines[1..] == body + tail;
    BodyEnds(body, tail);
    assert (body + tail)[..|body|] == body;
    BodyHasNoSticks(env, body, tail);
  }

  lemma {:induction false} BodyEnds(body: seq<Line>, tail: seq<Line>)
    requires NoHeader(body) && (tail != [] ==> IsHeader(tail[0]))
    ensures BodyLength(body + tail) == |body|
  {
    if body == [] {
      assert body + tail == tail;
    } else {
      assert (body + tail)[1..] == body[1..] + tail;
      BodyEnds(body[1..], tail);
    }
  }

  /** Lines outside any section yield nothing. */
  lemma {:induction false} BodyHasNoSticks(env: Platform, body: seq<Line>, tail: seq<Line>)
    requires NoHeader(body)
    ensures Sticks(env, body + tail) == Sticks(env, tail)
  {
    if body == [] {
      assert body + tail == tail;
    } else {
      assert (body + tail)[1..] == body[1..] + tail;
      BodyHasNoSticks(env, body[1..], tail);
    }
  }

  /** Every stick has a size. */
  lemma {:induction false} SticksSized(env: Platform, lines: seq<Line>)
    ensures forall m :: m in Sticks(env, lines) ==> m.sizeBytes > 0
  {
    if lines != [] {
      SticksSized(env, lines[1..]);
    }
  }

  // ---------------------------------------------------------------------------
  // The line-driven parser
  // ---------------------------------------------------------------------------

  /** The parser's state: sticks committed, whether a section is open, and the module being read. */
  datatype Scan = Scan(sticks: seq<Module>, inMemoryDevice: bool, current: Module)

  function Committed(s: Scan): seq<Module> {
    s.sticks + if s.inMemoryDevice then IfSized(s.current) else []
  }

  function Advance(env: Platform, s: Scan, line: Line): Scan {
    match line
    case ArrayHeader => s.(inMemoryDevice := false)
    case DeviceHeader => Scan(Committed(s), true, EMPTY)
    case Property(_, _) => if s.inMemoryDevice then s.(current := Refine(env, s.current, line)) else s
    case _ => s
  }

  function AdvanceAll(env: Platform, s: Scan, lines: seq<Line>): Scan
    decreases lines
  {
    if lines == [] then s else AdvanceAll(env, Advance(env, s, lines[0]), lines[1..])
  }

  /** From any state, scanning finds the stick of the open section and then those of the rest. */
  lemma {:induction false} ScanFindsSticks(env: Platform, s: Scan, lines: seq<Line>)
    ensures Committed(AdvanceAll(env, s, lines)) ==
            s.sticks + (if s.inMemoryDevice then SectionStick(env, s.current, lines) else []) + Sticks(env, lines)
    decreases lines
  {
    if lines == [] {
      assert lines[..0] == [];
      assert RefineAll(env, s.current, lines[..0]) == s.current;
    } else {
      ScanFindsSticks(env, Advance(env, s, lines[0]), lines[1..]);
      SectionStep(env, s.current, lines);
    }
  }

  /** How the open section's stick depends on the next line. */
  lemma SectionStep(env: Platform, m: Module, lines: seq<Line>)
    requires lines != []
    ensures SectionStick(env, m, lines) ==
            match lines[0]
            case ArrayHeader => []
            case DeviceHeader => IfSized(m)
            case _ => SectionStick(env, Refine(env, m, lines[0]), lines[1..])
  {
    var n := BodyLength(lines);
    if n == 0 {
      assert lines[..0] == [];
    } else {
      assert BodyLength(lines[1..]) == n - 1;
      assert lines[..n][1..] == lines[1..][..n - 1] && lines[..n][0] == lines[0];
    }
  }

  /** A new row at the end of every array. */
  function Append(info: Info, s: Stick): Info {
    info.(
      stickSlot := info.stickSlot + [s.slot],
      stickSizeBytes := info.stickSizeBytes + [s.sizeBytes],
      stickSpeedMhz := info.stickSpeedMhz + [s.speedMhz],
      stickType := info.stickType + [s.kind],
      stickModel := info.stickModel + [s.model],
      stickManufacturer := info.stickManufacturer + [s.manufacturer],
      stickPartNumber := info.stickPartNumber + [s.partNumber],
      stickSerial := info.stickSerial + [s.serial],
      totalPhysicalBytes := Add64(info.totalPhysicalBytes, s.sizeBytes))
  }

  lemma AppendedRows(info: Info, n: nat, s: Stick)
    requires Columns(info, n)
    ensures Columns(Append(info, s), n + 1)
    ensures forall i :: 0 <= i < n ==> Row(Append(info, s), i) == Row(info, i)
    ensures Row(Append(info, s), n) == s
  {
  }

  lemma AppendHolds(info: Info, rows: seq<Stick>, s: Stick)
    requires Holds(info, rows)
    ensures Holds(Append(info, s), rows + [s])
  {
    AppendedRows(info, |rows|, s);
    var sizes := info.stickSizeBytes;
    assert (sizes + [s.sizeBytes])[..|sizes|] == sizes;
  }

  lemma ReportsAppend(sticks: seq<Module>, m: Module)
    ensures Reports(sticks + [m]) == Reports(sticks) + [Report(m, |sticks|)]
  {
  }

  /** Append the module being read, if its section is open and it has a size. */
  method Commit(inMemoryDevice: bool, current: Module, info: Info, ghost sticks: seq<Module>) returns (out: Info)
    requires Holds(info, Reports(sticks))
    ensures Holds(out, Reports(Committed(Scan(sticks, inMemoryDevice, current))))
    ensures out.eccEnabled == info.eccEnabled
  {
    if !inMemoryDevice || current.sizeBytes == 0 {
      assert sticks + [] == sticks;
      return info;
    }
    var row := Report(current, |info.stickSlot|);
    out := Append(info, row);
    AppendHolds(info, Reports(sticks), row);
    ReportsAppend(sticks, current);
  }

  /** One line of the report, on the parser's variables. */
  method ParseLine(
    env: Platform, line: Line, inMemoryDevice: bool, current: Module, info: Info, ghost sticks: seq<Module>)
    returns (nowIn: bool, now: Module, out: Info, ghost nowSticks: seq<Module>)
    requires Holds(info, Reports(sticks))
    ensures Holds(out, Reports(nowSticks))
    ensures Scan(nowSticks, nowIn, now) == Advance(env, Scan(sticks, inMemoryDevice, current), line)
    ensures out.eccEnabled <==> info.eccEnabled || line == ErrorCorrection(true)
  {
    nowIn, now, out, nowSticks := inMemoryDevice, current, info, sticks;
    match line {
      case ArrayHeader =>
        nowIn := false;
      case DeviceHeader =>
        out := Commit(inMemoryDevice, current, info, sticks);
        nowSticks := Committed(Scan(sticks, inMemoryDevice, current));
        nowIn := true;
        now := EMPTY;
      case ErrorCorrection(enabled) =>
        if enabled {
          out := info.(eccEnabled := true);
        }
      case Property(key, value) =>
        if inMemoryDevice {
          now := SetProperty(env, current, key, value);
        }
      case _ =>
    }
  }

  /** The loop over the lines. */
  method ScanLines(env: Platform, pieces: seq<string>, ghost lines: seq<Line>)
    returns (inMemoryDevice: bool, current: Module, info: Info, ghost sticks: seq<Module>)
    requires |lines| == |pieces| && forall i :: 0 <= i < |lines| ==> lines[i] == Classify(pieces[i])
    ensures Holds(info, Reports(sticks))
    ensures Scan(sticks, inMemoryDevice, current) == AdvanceAll(env, Scan([], false, EMPTY), lines)
    ensures info.eccEnabled <==> ErrorCorrection(true) in lines
  {
    info := Info([], [], [], [], [], [], [], [], 0, 0, false);
    inMemoryDevice, current, sticks := false, EMPTY, [];
    ghost var start := Scan([], false, EMPTY);
    for i := 0 to |pieces|
      invariant Holds(info, Reports(sticks))
      invariant AdvanceAll(env, Scan(sticks, inMemoryDevice, current), lines[i..]) == AdvanceAll(env, start, lines)
      invariant info.eccEnabled <==> ErrorCorrection(true) in lines[..i]
    {
      AdvanceOne(env, Scan(sticks, inMemoryDevice, current), lines, i);
      SeenNext(lines, i, ErrorCorrection(true));
      inMemoryDevice, current, info, sticks :=
        ParseLine(env, Classify(pieces[i]), inMemoryDevice, current, info, sticks);
    }
    assert lines[..|pieces|] == lines && lines[|pieces|..] == [];
  }

  lemma SeenNext(lines: seq<Line>, i: nat, line: Line)
    requires i < |lines|
    ensures line in lines[..i + 1] <==> line in lines[..i] || lines[i] == line
  {
    assert lines[..i + 1] == lines[..i] + [lines[i]];
  }

  lemma AdvanceOne(env: Platform, s: Scan, lines: seq<Line>, i: nat)
    requires i < |lines|
    ensures AdvanceAll(env, s, lines[i..]) == AdvanceAll(env, Advance(env, s, lines[i]), lines[i + 1..])
  {
    assert lines[i..][0] == lines[i] && lines[i..][1..] == lines[i + 1..];
  }

  /**
   The information collected reports exactly the report's sticks, in order; error correction
   is on exactly when some line says so.
   */
  method ParseDmidecodeMemoryInfo(env: Platform, raw: string) returns (info: Info)
    ensures Holds(info, Reports(Sticks(env, Lines(raw))))
    ensures info.stickCount == |Sticks(env, Lines(raw))|
    ensures info.eccEnabled <==> ErrorCorrection(true) in Lines(raw)
  {
    var inMemoryDevice: bool, current: Module;
    ghost var sticks: seq<Module>;
    inMemoryDevice, current, info, sticks := ScanLines(env, Split(raw, '\n'), Lines(raw));
    WholeReport(env, Lines(raw));
    var all := Commit(inMemoryDevice, current, info, sticks);
    info := all.(stickCount := |all.stickSizeBytes|);
    CountKeepsRows(all, Reports(Sticks(env, Lines(raw))));
  }

  lemma WholeReport(env: Platform, lines: seq<Line>)
    ensures Committed(AdvanceAll(env, Scan([], false, EMPTY), lines)) == Sticks(env, lines)
  {
    ScanFindsSticks(env, Scan([], false, EMPTY), lines);
  }

  lemma CountKeepsRows(info: Info, rows: seq<Stick>)
    requires Holds(info, rows)
    ensures Holds(info.(stickCount := |info.stickSizeBytes|), rows)
    ensures |info.stickSizeBytes| == |rows|
  {
    var counted := info.(stickCount := |info.stickSizeBytes|);
    forall i | 0 <= i < |rows|
      ensures Row(counted, i) == rows[i]
    {
      assert Row(counted, i) == Row(info, i);
    }
  }

  /** The consequences a consumer of the parallel arrays relies on. */
  lemma ParsedInfoIsCoherent(env: Platform, raw: string, info: Info)
    requires Holds(info, Reports(Sticks(env, Lines(raw)))) && info.stickCount == |Sticks(env, Lines(raw))|
    ensures Columns(info, info.stickCount)
    ensures forall i :: 0 <= i < info.stickCount ==> info.stickSizeBytes[i] > 0
    ensures info.totalPhysicalBytes == Sum(info.stickSizeBytes) % TWO_64
    ensures forall i :: 0 <= i < info.stickCount ==> info.stickSlot[i] != "" && info.stickSerial[i] != ""
  {
    var sticks := Sticks(env, Lines(raw));
    SticksSized(env, Lines(raw));
    forall i | 0 <= i < info.stickCount
      ensures info.stickSizeBytes[i] == sticks[i].sizeBytes > 0
      ensures info.stickSlot[i] != "" && info.stickSerial[i] != ""
    {
      assert Row(info, i) == Report(sticks[i], i) && sticks[i] in sticks;
      ReportVisible(sticks[i], i);
    }
  }

  lemma ReportVisible(m: Module, i: nat)
    ensures Report(m, i).slot != "" && Report(m, i).serial != ""
  {
    ReportFields(m, i);
  }
}
