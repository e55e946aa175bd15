// What survives writing a configuration and reading it back.
module ConfigRoundTrip {
  import opened Basics
  import opened Wrappers
  import opened StdText
  import opened LegacyConfig

  // ---- Keys

  predicate CleanKey(k: string) {
    k != [] && NL !in k && '=' !in k && !IsWhitespace(k[0]) && !IsWhitespace(k[|k| - 1])
  }

  lemma CleanKeyIsTrimmed(k: string)
    requires CleanKey(k)
    ensures Trim(k) == k
  {}

  lemma EarlyKeyIsClean(f: Field)
    requires f.Name? || f.GuestOsField? || f.GuestArchField? || f.Ram? || f.CpuCores? || f.Disk? || f.Iso? ||
             f.Boot? || f.Bios? || f.RamAllocField? || f.Gpu? || f.VramMb? || f.Nic?
    ensures CleanKey(KeyName(f))
  {}

  lemma NetKeyIsClean(f: Field)
    requires f.NetEnabled? || f.NetModeField? || f.NetHostNic? || f.MacModeField? || f.MacAddress?
    ensures CleanKey(KeyName(f))
  {}

  lemma SwitchKeyIsClean(f: Field)
    requires f.AudioEnabled? || f.UsbTablet? || f.Diagnostics? || f.DiskCacheMb? || f.DiskCacheModeField?
    ensures CleanKey(KeyName(f))
  {}

  lemma DiskKeyIsClean(i: nat)
    ensures CleanKey(DiskKey(i))
  {
    ToDecimalIsClean(i + 1);
  }

  /** Every printed key reaches its own arm, except that the numbered-disk guard takes both
      cache settings. */
  lemma EarlyKeyReaches(f: Field)
    requires f.Name? || f.GuestOsField? || f.GuestArchField? || f.Ram? || f.CpuCores? || f.Disk?
    ensures FieldOf(KeyName(f)) == f
  {
    hide DeviceFieldOf;
    if f.Disk? { assert KeyName(f) == "disk"; }
  }

  lemma BootKeyReaches(f: Field)
    requires f.Iso? || f.Boot? || f.Bios? || f.RamAllocField? || f.Gpu? || f.VramMb? || f.Nic?
    ensures FieldOf(KeyName(f)) == f
  {
    hide DeviceFieldOf;
    assert KeyName(f)[0] != 'd' && "disk"[0] == 'd';
  }

  lemma LaterKeys(key: string)
    requires |key| >= 8 && (key[0] in "nmau" || "diag" <= key)
    ensures FieldOf(key) == DeviceFieldOf(key)
  {
    hide DeviceFieldOf;
    if "diag" <= key {
      assert key[2] == 'a' && "disk"[2] == 's';
    }
  }

  lemma DeviceKeyReaches(f: Field)
    requires f.NetEnabled? || f.NetModeField? || f.NetHostNic? || f.MacModeField? || f.MacAddress? ||
             f.AudioEnabled? || f.UsbTablet? || f.Diagnostics?
    ensures FieldOf(KeyName(f)) == f
  {
    hide FieldOf;
    var key := KeyName(f);
    if f.Diagnostics? { assert key[..4] == "diag"; }
    LaterKeys(key);
  }

  /** No key at all reaches the two cache arms. */
  lemma CacheArmsAreShadowed(key: string)
    ensures !FieldOf(key).DiskCacheMb? && !FieldOf(key).DiskCacheModeField?
    ensures FieldOf(KeyName(DiskCacheMb)) == NumberedDisk("_cache_mb")
    ensures FieldOf(KeyName(DiskCacheModeField)) == NumberedDisk("_cache_mode")
  {
    assert "disk_cache_mb"[..4] == "disk" && "disk_cache_mode"[..4] == "disk";
    assert "disk_cache_mb"[4..] == "_cache_mb" && "disk_cache_mode"[4..] == "_cache_mode";
  }

  lemma DiskKeyReaches(i: nat)
    ensures FieldOf(DiskKey(i)) == DiskField(i)
  {
    hide ToDecimal, DeviceFieldOf, AllDigits;
    if i > 0 {
      DecimalValueOfToDecimal(i + 1);
      var key := "disk" + ToDecimal(i + 1);
      assert KeyName(NumberedDisk(ToDecimal(i + 1))) == key;
      assert key[0] == 'd' && "disk" <= key && key[4..] == ToDecimal(i + 1);
    }
  }

  // ---- From text back to entries

  function Stripped(es: seq<Entry>): (r: seq<Entry>)
    ensures |r| == |es|
    ensures forall i | 0 <= i < |es| :: r[i] == (es[i].0, StripCr(es[i].1))
  {
    seq(|es|, i requires 0 <= i < |es| => (es[i].0, StripCr(es[i].1)))
  }

  function ApplyEntries(es: seq<Entry>, cfg: VmConfig): Result<VmConfig, LoadError> {
    if es == [] then Ok(cfg)
    else
      match SetField(cfg, FieldOf(es[0].0), es[0].1)
      case Err(e) => Err(e)
      case Ok(next) => ApplyEntries(es[1..], next)
  }

  predicate Printable(e: Entry) { CleanKey(e.0) && NL !in e.1 }

  lemma LineReadsBack(cfg: VmConfig, e: Entry)
    requires Printable(e)
    ensures NL !in Line(e)
    ensures ApplyLine(cfg, StripCr(Line(e))) == SetField(cfg, FieldOf(e.0), StripCr(e.1))
  {
    hide FieldOf, SetField, Trim, SplitOnce, IsWhitespace;
    assert StripCr(Line(e)) == e.0 + ['='] + StripCr(e.1);
    SplitOnceInverts(e.0, '=', StripCr(e.1));
    CleanKeyIsTrimmed(e.0);
  }

  /** Reading printed entries applies them one by one, each value less one trailing CR. */
  lemma {:induction false} TextReadsBack(es: seq<Entry>, cfg: VmConfig)
    requires forall e | e in es :: Printable(e)
    ensures ApplyLines(Lines(Text(es)), cfg) == ApplyEntries(Stripped(es), cfg)
  {
    hide FieldOf, SetField, Lines, Line, StripCr, Printable, ApplyLine;
    if es == [] {
      assert Lines("") == [] by { EmptyHasNoLines(); }
    } else {
      LineReadsBack(cfg, es[0]);
      LinesOfFirst(Line(es[0]), Text(es[1..]));
      assert Stripped(es)[1..] == Stripped(es[1..]);
      var first := SetField(cfg, FieldOf(es[0].0), StripCr(es[0].1));
      if first.Ok? {
        TextReadsBack(es[1..], first.value);
      }
    }
  }

  lemma EmptyHasNoLines()
    ensures Lines("") == []
  {}

  // ---- Applying entries

  lemma {:induction false} ApplyAppend(a: seq<Entry>, b: seq<Entry>, cfg: VmConfig)
    ensures ApplyEntries(a + b, cfg) ==
            match ApplyEntries(a, cfg)
            case Err(e) => Err(e)
            case Ok(mid) => ApplyEntries(b, mid)
  {
    hide FieldOf, SetField;
    if a == [] {
      assert a + b == b;
    } else {
      assert (a + b)[1..] == a[1..] + b;
      var first := SetField(cfg, FieldOf(a[0].0), a[0].1);
      if first.Ok? {
        ApplyAppend(a[1..], b, first.value);
      }
    }
  }

  predicate Applies(e: Entry, c: VmConfig, next: VmConfig) {
    SetField(c, FieldOf(e.0), e.1) == Ok(next)
  }

  lemma {:induction false} ApplyChain(es: seq<Entry>, cs: seq<VmConfig>)
    requires |cs| == |es| + 1
    requires forall i | 0 <= i < |es| :: Applies(es[i], cs[i], cs[i + 1])
    ensures ApplyEntries(es, cs[0]) == Ok(cs[|es|])
  {
    hide FieldOf, SetField;
    if es != [] {
      ApplyChain(es[1..], cs[1..]);
    }
  }

  // ---- Values

  predicate Clean(v: string) { NL !in v && !EndsInCr(v) }

  lemma CleanIsStripped()
    ensures forall v :: Clean(v) ==> StripCr(v) == v
  {}

  /** Every enumeration and number prints to text that reads back as itself. */
  lemma GuestOsReadsBack(os: GuestOs)
    ensures GuestOsOf(GuestOsName(os)) == os && Clean(GuestOsName(os))
  {
    hide EndsInCr, Clean, GuestOsName, GuestOsOf;
    GuestOsInverts(os);
    GuestOsNameIsClean(os);
  }

  predicate IsWindows(os: GuestOs) {
    os.Windows7? || os.Windows8? || os.Windows10? || os.Windows11? ||
    os.WindowsServer2016? || os.WindowsServer2019? || os.WindowsServer2022?
  }

  lemma GuestOsInverts(os: GuestOs)
    ensures GuestOsOf(GuestOsName(os)) == os
  {
    hide GuestOsName, GuestOsOf;
    if IsWindows(os) { WindowsInverts(os); } else { OtherOsInverts(os); }
  }

  lemma WindowsInverts(os: GuestOs)
    requires IsWindows(os)
    ensures GuestOsOf(GuestOsName(os)) == os
  {}

  lemma OtherOsInverts(os: GuestOs)
    requires !IsWindows(os)
    ensures GuestOsOf(GuestOsName(os)) == os
  {}

  lemma GuestOsNameIsClean(os: GuestOs)
    ensures Clean(GuestOsName(os))
  {}

  lemma MachineNamesReadBack(boot: BootOrder, bios: BiosType, alloc: RamAlloc, gpu: GpuModel, nic: NicModel)
    ensures BootOf(BootName(boot)) == boot && Clean(BootName(boot))
    ensures BiosOf(BiosName(bios)) == bios && Clean(BiosName(bios))
    ensures RamAllocOf(RamAllocName(alloc)) == alloc && Clean(RamAllocName(alloc))
    ensures GpuOf(GpuName(gpu)) == gpu && Clean(GpuName(gpu))
    ensures NicOf(NicName(nic)) == nic && Clean(NicName(nic))
  {}

  lemma MachineNamesClean(boot: BootOrder, bios: BiosType, alloc: RamAlloc, gpu: GpuModel, nic: NicModel)
    ensures Clean(BootName(boot)) && Clean(BiosName(bios)) && Clean(RamAllocName(alloc))
    ensures Clean(GpuName(gpu)) && Clean(NicName(nic))
  {
    hide Clean, BootName, BiosName, RamAllocName, GpuName, NicName;
    MachineNamesReadBack(boot, bios, alloc, gpu, nic);
  }

  lemma DeviceNamesReadBack(net: NetMode, mac: MacMode, cache: DiskCacheMode, flag: bool, arch: GuestArch)
    ensures NetModeOf(NetModeName(net)) == net && Clean(NetModeName(net))
    ensures MacModeOf(MacModeName(mac)) == mac && Clean(MacModeName(mac))
    ensures CacheModeOf(CacheModeName(cache)) == cache && Clean(CacheModeName(cache))
    ensures (FlagName(flag) == "1") == flag && Clean(FlagName(flag))
    ensures ArchOf(ArchName(arch)) == arch && Clean(ArchName(arch))
  {}

  lemma NumberReadsBack(n: u32, fallback: u32)
    ensures NumberOr(ToDecimal(n), fallback) == n && Clean(ToDecimal(n))
  {
    ParseInvertsToDecimal(n, U32_MAX);
    ToDecimalIsClean(n);
  }

  // ---- Section by section

  /** The suffixes the guard cuts off the cache settings are no numbers, so those lines set nothing. */
  lemma CacheLinesSetNothing(c: VmConfig, val: string)
    ensures SetField(c, FieldOf(KeyName(DiskCacheMb)), val) == Ok(c)
    ensures SetField(c, FieldOf(KeyName(DiskCacheModeField)), val) == Ok(c)
  {
    hide FieldOf, KeyName;
    CacheArmsAreShadowed("");
    assert !IsDigit("_cache_mb"[0]) && !IsDigit("_cache_mode"[0]);
  }

  /** The configuration with one trailing CR taken off every string. */
  function StripCrs(cfg: VmConfig): VmConfig {
    cfg.(name := StripCr(cfg.name), isoImage := StripCr(cfg.isoImage), netHostNic := StripCr(cfg.netHostNic),
         macAddress := StripCr(cfg.macAddress), diskImages := StripAll(cfg.diskImages))
  }

  function StripAll(disks: Disks): (r: Disks)
    ensures |r| == |disks| && forall i | 0 <= i < |disks| :: r[i] == StripCr(disks[i])
  {
    seq(|disks|, i requires 0 <= i < |disks| => StripCr(disks[i]))
  }

  lemma SetHeadFields(c: VmConfig, cfg: VmConfig, text: VmConfig)
    ensures SetField(c, Name, text.name) == Ok(c.(name := text.name))
    ensures SetField(c, GuestOsField, GuestOsName(cfg.guestOs)) == Ok(c.(guestOs := cfg.guestOs))
    ensures SetField(c, GuestArchField, ArchName(cfg.guestArch)) == Ok(c.(guestArch := cfg.guestArch))
    ensures SetField(c, Ram, ToDecimal(cfg.ramMb)) == Ok(c.(ramMb := cfg.ramMb))
    ensures SetField(c, CpuCores, ToDecimal(cfg.cpuCores)) == Ok(c.(cpuCores := cfg.cpuCores))
  {
    hide ToDecimal, GuestOsName, ArchName, NumberOr, GuestOsOf, ArchOf;
    GuestOsReadsBack(cfg.guestOs);
    DeviceNamesReadBack(cfg.netMode, cfg.macMode, cfg.diskCacheMode, true, cfg.guestArch);
    NumberReadsBack(cfg.ramMb, 256);
    NumberReadsBack(cfg.cpuCores, 1);
  }

  lemma HeadReadsBack(cfg: VmConfig, c: VmConfig)
    ensures ApplyEntries(Stripped(HeadEntries(cfg)), c) ==
            Ok(c.(name := StripCr(cfg.name), guestOs := cfg.guestOs, guestArch := cfg.guestArch,
                  ramMb := cfg.ramMb, cpuCores := cfg.cpuCores))
  {
    hide FieldOf, SetField, KeyName, ApplyEntries, StripCr, Clean, ToDecimal, GuestOsName, ArchName,
      NumberOr, GuestOsOf, ArchOf;
    CleanIsStripped();
    GuestOsReadsBack(cfg.guestOs);
    DeviceNamesReadBack(cfg.netMode, cfg.macMode, cfg.diskCacheMode, true, cfg.guestArch);
    NumberReadsBack(cfg.ramMb, 256);
    NumberReadsBack(cfg.cpuCores, 1);
    var text := StripCrs(cfg);
    var es := Stripped(HeadEntries(cfg));
    var c1 := c.(name := text.name);
    var c2 := c1.(guestOs := text.guestOs);
    var c3 := c2.(guestArch := text.guestArch);
    var c4 := c3.(ramMb := text.ramMb);
    var c5 := c4.(cpuCores := text.cpuCores);
    assert Applies(es[0], c, c1) by { EarlyKeyReaches(Name); SetHeadFields(c, cfg, text); }
    assert Applies(es[1], c1, c2) by { EarlyKeyReaches(GuestOsField); SetHeadFields(c1, cfg, text); }
    assert Applies(es[2], c2, c3) by { EarlyKeyReaches(GuestArchField); SetHeadFields(c2, cfg, text); }
    assert Applies(es[3], c3, c4) by { EarlyKeyReaches(Ram); SetHeadFields(c3, cfg, text); }
    assert Applies(es[4], c4, c5) by { EarlyKeyReaches(CpuCores); SetHeadFields(c4, cfg, text); }
    ApplyChain(es, [c, c1, c2, c3, c4, c5]);
  }

  lemma SetBootFields(c: VmConfig, cfg: VmConfig, text: VmConfig)
    ensures SetField(c, Iso, text.isoImage) == Ok(c.(isoImage := text.isoImage))
    ensures SetField(c, Boot, BootName(cfg.bootOrder)) == Ok(c.(bootOrder := cfg.bootOrder))
    ensures SetField(c, Bios, BiosName(cfg.biosType)) == Ok(c.(biosType := cfg.biosType))
    ensures SetField(c, RamAllocField, RamAllocName(cfg.ramAlloc)) == Ok(c.(ramAlloc := cfg.ramAlloc))
    ensures SetField(c, Gpu, GpuName(cfg.gpuModel)) == Ok(c.(gpuModel := cfg.gpuModel))
    ensures SetField(c, VramMb, ToDecimal(cfg.vramMb)) == Ok(c.(vramMb := cfg.vramMb))
    ensures SetField(c, Nic, NicName(cfg.nicModel)) == Ok(c.(nicModel := cfg.nicModel))
  {
    hide ToDecimal, BootName, BiosName, RamAllocName, GpuName, NicName;
    hide NumberOr, BootOf, BiosOf, RamAllocOf, GpuOf, NicOf;
    MachineNamesReadBack(cfg.bootOrder, cfg.biosType, cfg.ramAlloc, cfg.gpuModel, cfg.nicModel);
    NumberReadsBack(cfg.vramMb, 16);
  }

  lemma BootStripped(cfg: VmConfig)
    ensures Stripped(BootEntries(cfg)) ==
            [(KeyName(Iso), StripCr(cfg.isoImage)),
             (KeyName(Boot), BootName(cfg.bootOrder)),
             (KeyName(Bios), BiosName(cfg.biosType)),
             (KeyName(RamAllocField), RamAllocName(cfg.ramAlloc)),
             (KeyName(Gpu), GpuName(cfg.gpuModel)),
             (KeyName(VramMb), ToDecimal(cfg.vramMb)),
             (KeyName(Nic), NicName(cfg.nicModel))]
  {
    hide KeyName, StripCr, Clean, ToDecimal, BootName, BiosName, RamAllocName, GpuName, NicName, NumberOr;
    CleanIsStripped();
    MachineNamesClean(cfg.bootOrder, cfg.biosType, cfg.ramAlloc, cfg.gpuModel, cfg.nicModel);
    NumberReadsBack(cfg.vramMb, 16);
  }

  lemma BootApplies(cfg: VmConfig, c: VmConfig)
    ensures Applies((KeyName(Iso), StripCr(cfg.isoImage)), c, c.(isoImage := StripCr(cfg.isoImage)))
    ensures Applies((KeyName(Boot), BootName(cfg.bootOrder)), c, c.(bootOrder := cfg.bootOrder))
    ensures Applies((KeyName(Bios), BiosName(cfg.biosType)), c, c.(biosType := cfg.biosType))
    ensures Applies((KeyName(RamAllocField), RamAllocName(cfg.ramAlloc)), c, c.(ramAlloc := cfg.ramAlloc))
    ensures Applies((KeyName(Gpu), GpuName(cfg.gpuModel)), c, c.(gpuModel := cfg.gpuModel))
    ensures Applies((KeyName(VramMb), ToDecimal(cfg.vramMb)), c, c.(vramMb := cfg.vramMb))
    ensures Applies((KeyName(Nic), NicName(cfg.nicModel)), c, c.(nicModel := cfg.nicModel))
  {
    hide FieldOf, SetField, KeyName, StripCr, ToDecimal, BootName, BiosName, RamAllocName, GpuName, NicName;
    SetBootFields(c, cfg, StripCrs(cfg));
    BootKeyReaches(Iso);
    BootKeyReaches(Boot);
    BootKeyReaches(Bios);
    BootKeyReaches(RamAllocField);
    BootKeyReaches(Gpu);
    BootKeyReaches(VramMb);
    BootKeyReaches(Nic);
  }

  lemma BootReadsBack(cfg: VmConfig, c: VmConfig)
    ensures ApplyEntries(Stripped(BootEntries(cfg)), c) ==
            Ok(c.(isoImage := StripCr(cfg.isoImage), bootOrder := cfg.bootOrder, biosType := cfg.biosType,
                  ramAlloc := cfg.ramAlloc, gpuModel := cfg.gpuModel, vramMb := cfg.vramMb,
                  nicModel := cfg.nicModel))
  {
    hide Applies, KeyName, ApplyEntries, StripCr, ToDecimal, BootName, BiosName, RamAllocName, GpuName, NicName;
    hide Stripped, BootEntries;
    BootStripped(cfg);
    var c1 := c.(isoImage := StripCr(cfg.isoImage));
    var c2 := c1.(bootOrder := cfg.bootOrder);
    var c3 := c2.(biosType := cfg.biosType);
    var c4 := c3.(ramAlloc := cfg.ramAlloc);
    var c5 := c4.(gpuModel := cfg.gpuModel);
    var c6 := c5.(vramMb := cfg.vramMb);
    var c7 := c6.(nicModel := cfg.nicModel);
    var es := Stripped(BootEntries(cfg));
    assert Applies(es[0], c, c1) by { BootApplies(cfg, c); }
    assert Applies(es[1], c1, c2) by { BootApplies(cfg, c1); }
    assert Applies(es[2], c2, c3) by { BootApplies(cfg, c2); }
    assert Applies(es[3], c3, c4) by { BootApplies(cfg, c3); }
    assert Applies(es[4], c4, c5) by { BootApplies(cfg, c4); }
    assert Applies(es[5], c5, c6) by { BootApplies(cfg, c5); }
    assert Applies(es[6], c6, c7) by { BootApplies(cfg, c6); }
    ApplyChain(es, [c, c1, c2, c3, c4, c5, c6, c7]);
  }

  lemma SetNetFields(c: VmConfig, cfg: VmConfig, text: VmConfig)
    ensures SetField(c, NetEnabled, FlagName(cfg.netEnabled)) == Ok(c.(netEnabled := cfg.netEnabled))
    ensures SetField(c, NetModeField, NetModeName(cfg.netMode)) == Ok(c.(netMode := cfg.netMode))
    ensures SetField(c, NetHostNic, text.netHostNic) == Ok(c.(netHostNic := text.netHostNic))
    ensures SetField(c, MacModeField, MacModeName(cfg.macMode)) == Ok(c.(macMode := cfg.macMode))
    ensures SetField(c, MacAddress, text.macAddress) == Ok(c.(macAddress := text.macAddress))
  {
    hide FlagName, NetModeName, MacModeName, NetModeOf, MacModeOf;
    DeviceNamesReadBack(cfg.netMode, cfg.macMode, cfg.diskCacheMode, cfg.netEnabled, cfg.guestArch);
  }

  lemma NetReadsBack(cfg: VmConfig, c: VmConfig)
    ensures ApplyEntries(Stripped(NetEntries(cfg)), c) ==
            Ok(c.(netEnabled := cfg.netEnabled, netMode := cfg.netMode, netHostNic := StripCr(cfg.netHostNic),
                  macMode := cfg.macMode, macAddress := StripCr(cfg.macAddress)))
  {
    hide FieldOf, SetField, KeyName, ApplyEntries, StripCr, Clean, FlagName, NetModeName, MacModeName,
      NetModeOf, MacModeOf;
    CleanIsStripped();
    DeviceNamesReadBack(cfg.netMode, cfg.macMode, cfg.diskCacheMode, cfg.netEnabled, cfg.guestArch);
    var text := StripCrs(cfg);
    var es := Stripped(NetEntries(cfg));
    var c1 := c.(netEnabled := text.netEnabled);
    var c2 := c1.(netMode := text.netMode);
    var c3 := c2.(netHostNic := text.netHostNic);
    var c4 := c3.(macMode := text.macMode);
    var c5 := c4.(macAddress := text.macAddress);
    assert Applies(es[0], c, c1) by { DeviceKeyReaches(NetEnabled); SetNetFields(c, cfg, text); }
    assert Applies(es[1], c1, c2) by { DeviceKeyReaches(NetModeField); SetNetFields(c1, cfg, text); }
    assert Applies(es[2], c2, c3) by { DeviceKeyReaches(NetHostNic); SetNetFields(c2, cfg, text); }
    assert Applies(es[3], c3, c4) by { DeviceKeyReaches(MacModeField); SetNetFields(c3, cfg, text); }
    assert Applies(es[4], c4, c5) by { DeviceKeyReaches(MacAddress); SetNetFields(c4, cfg, text); }
    ApplyChain(es, [c, c1, c2, c3, c4, c5]);
  }

  lemma SetSwitchFields(c: VmConfig, cfg: VmConfig, text: VmConfig)
    ensures SetField(c, AudioEnabled, FlagName(cfg.audioEnabled)) == Ok(c.(audioEnabled := cfg.audioEnabled))
    ensures SetField(c, UsbTablet, FlagName(cfg.usbTablet)) == Ok(c.(usbTablet := cfg.usbTablet))
    ensures SetField(c, Diagnostics, FlagName(cfg.diagnostics)) == Ok(c.(diagnostics := cfg.diagnostics))
  {
    hide FlagName, ToDecimal, CacheModeName, NumberOr, CacheModeOf;
    DeviceNamesReadBack(cfg.netMode, cfg.macMode, cfg.diskCacheMode, cfg.audioEnabled, cfg.guestArch);
    DeviceNamesReadBack(cfg.netMode, cfg.macMode, cfg.diskCacheMode, cfg.usbTablet, cfg.guestArch);
    DeviceNamesReadBack(cfg.netMode, cfg.macMode, cfg.diskCacheMode, cfg.diagnostics, cfg.guestArch);
    NumberReadsBack(cfg.diskCacheMb, 0);
  }

  lemma SwitchReadsBack(cfg: VmConfig, c: VmConfig)
    ensures ApplyEntries(Stripped(SwitchEntries(cfg)), c) ==
            Ok(c.(audioEnabled := cfg.audioEnabled, usbTablet := cfg.usbTablet, diagnostics := cfg.diagnostics))
  {
    hide FieldOf, SetField, KeyName, ApplyEntries, StripCr, Clean, FlagName, ToDecimal, CacheModeName,
      NumberOr, CacheModeOf;
    CleanIsStripped();
    DeviceNamesReadBack(cfg.netMode, cfg.macMode, cfg.diskCacheMode, cfg.audioEnabled, cfg.guestArch);
    DeviceNamesReadBack(cfg.netMode, cfg.macMode, cfg.diskCacheMode, cfg.usbTablet, cfg.guestArch);
    DeviceNamesReadBack(cfg.netMode, cfg.macMode, cfg.diskCacheMode, cfg.diagnostics, cfg.guestArch);
    NumberReadsBack(cfg.diskCacheMb, 0);
    var text := StripCrs(cfg);
    var es := Stripped(SwitchEntries(cfg));
    var c1 := c.(audioEnabled := text.audioEnabled);
    var c2 := c1.(usbTablet := text.usbTablet);
    var c3 := c2.(diagnostics := text.diagnostics);
    assert Applies(es[0], c, c1) by { DeviceKeyReaches(AudioEnabled); SetSwitchFields(c, cfg, text); }
    assert Applies(es[1], c1, c2) by { DeviceKeyReaches(UsbTablet); SetSwitchFields(c1, cfg, text); }
    assert Applies(es[2], c2, c3) by { DeviceKeyReaches(Diagnostics); SetSwitchFields(c2, cfg, text); }
    assert Applies(es[3], c3, c3) by { CacheLinesSetNothing(c3, es[3].1); }
    assert Applies(es[4], c3, c3) by { CacheLinesSetNothing(c3, es[4].1); }
    ApplyChain(es, [c, c1, c2, c3, c3, c3]);
  }

  // ---- Disks

  lemma {:induction false} DropTrailingIs(disks: seq<string>, r: seq<string>)
    requires r <= disks && (r == [] || r[|r| - 1] != "")
    requires forall i | |r| <= i < |disks| :: disks[i] == ""
    ensures DropTrailing(disks) == r
  {
    if |r| < |disks| {
      DropTrailingIs(disks[..|disks| - 1], r);
    }
  }

  lemma DiskPlaced(disks: Disks, i: nat)
    requires i < |disks|
    ensures DropTrailing(disks[..i + 1]) ==
            if disks[i] == "" then DropTrailing(disks[..i]) else SetDisk(DropTrailing(disks[..i]), i, disks[i])
  {
    hide DropTrailing;
    var before, after := DropTrailing(disks[..i]), disks[..i + 1];
    if disks[i] == "" {
      DropTrailingIs(after, before);
    } else {
      DropTrailingIs(after, after);
      assert SetDisk(before, i, disks[i]) == after;
    }
  }

  /** Reading the line of disk `i` on top of the first `i` disks leaves the first `i + 1`, both
      without trailing empty names: an empty name is skipped, the next real one pads it back in. */
  lemma DiskStep(disks: Disks, i: nat, c: VmConfig)
    requires i < |disks| && c.diskImages == DropTrailing(disks[..i])
    ensures SetField(c, DiskField(i), disks[i]) == Ok(c.(diskImages := DropTrailing(disks[..i + 1])))
  {
    hide DropTrailing, ToDecimal, ParseUnsigned, SetDisk;
    ParseInvertsToDecimal(i + 1, USIZE_MAX);
    DiskPlaced(disks, i);
  }

  lemma DisksReadBack(disks: Disks, c: VmConfig)
    requires c.diskImages == []
    ensures ApplyEntries(Stripped(DiskEntries(disks)), c) ==
            Ok(c.(diskImages := DropTrailing(StripAll(disks))))
  {
    hide FieldOf, SetField, ApplyEntries, DropTrailing, DiskKey, StripCr;
    var es, strip := Stripped(DiskEntries(disks)), StripAll(disks);
    if disks == [] {
      DropTrailingIs([], []);
      NoDiskLine(c);
      ApplyChain(es, [c, c]);
    } else {
      var cs := seq(|disks| + 1, n requires 0 <= n <= |disks| => c.(diskImages := DropTrailing(strip[..n])));
      forall i | 0 <= i < |es| ensures Applies(es[i], cs[i], cs[i + 1]) {
        DiskKeyReaches(i);
        DiskStep(strip, i, cs[i]);
      }
      DropTrailingIs([], []);
      assert strip[..0] == [] && strip[..|disks|] == strip;
      ApplyChain(es, cs);
    }
  }

  lemma NoDiskLine(c: VmConfig)
    ensures SetField(c, FieldOf(KeyName(Disk)), StripCr("")) == Ok(c)
  {
    EarlyKeyReaches(Disk);
  }

  // ---- The normal form

  /** What a configuration can keep: no trailing empty disks, no cache settings, no SDN settings. */
  function Normalize(cfg: VmConfig): VmConfig {
    cfg.(diskImages := DropTrailing(cfg.diskImages), diskCacheMb := 0, diskCacheMode := Uncached, sdnConfig := None)
  }

  predicate IsString(cfg: VmConfig, s: string) {
    s == cfg.name || s == cfg.isoImage || s == cfg.netHostNic || s == cfg.macAddress || s in cfg.diskImages
  }

  ghost predicate NoNewlines(cfg: VmConfig) { forall s | IsString(cfg, s) :: NL !in s }

  ghost predicate NoTrailingCrs(cfg: VmConfig) { forall s | IsString(cfg, s) :: !EndsInCr(s) }

  lemma EntriesPrintable(cfg: VmConfig)
    requires NoNewlines(cfg)
    ensures forall e | e in Entries(cfg) :: Printable(e)
  {
    HeadPrintable(cfg);
    BootPrintable(cfg);
    NetPrintable(cfg);
    SwitchPrintable(cfg);
    DisksPrintable(cfg);
    hide HeadEntries, BootEntries, NetEntries, SwitchEntries, DiskEntries, Printable;
  }

  lemma HeadPrintable(cfg: VmConfig)
    requires NL !in cfg.name
    ensures forall e | e in HeadEntries(cfg) :: Printable(e)
  {
    hide CleanKey, KeyName, ToDecimal, GuestOsName, ArchName, EndsInCr;
    EarlyKeyIsClean(Name);
    EarlyKeyIsClean(GuestOsField);
    EarlyKeyIsClean(GuestArchField);
    EarlyKeyIsClean(Ram);
    EarlyKeyIsClean(CpuCores);
    GuestOsReadsBack(cfg.guestOs);
    DeviceNamesReadBack(cfg.netMode, cfg.macMode, cfg.diskCacheMode, true, cfg.guestArch);
    NumberReadsBack(cfg.ramMb, 256);
    NumberReadsBack(cfg.cpuCores, 1);
  }

  lemma BootPrintable(cfg: VmConfig)
    requires NL !in cfg.isoImage
    ensures forall e | e in BootEntries(cfg) :: Printable(e)
  {
    hide CleanKey, KeyName, ToDecimal, BootName, BiosName, RamAllocName, GpuName, NicName, EndsInCr,
      BootOf, BiosOf, RamAllocOf, GpuOf, NicOf;
    EarlyKeyIsClean(Iso);
    EarlyKeyIsClean(Boot);
    EarlyKeyIsClean(Bios);
    EarlyKeyIsClean(RamAllocField);
    EarlyKeyIsClean(Gpu);
    EarlyKeyIsClean(VramMb);
    EarlyKeyIsClean(Nic);
    MachineNamesClean(cfg.bootOrder, cfg.biosType, cfg.ramAlloc, cfg.gpuModel, cfg.nicModel);
    NumberReadsBack(cfg.vramMb, 16);
  }

  lemma NetPrintable(cfg: VmConfig)
    requires NL !in cfg.netHostNic && NL !in cfg.macAddress
    ensures forall e | e in NetEntries(cfg) :: Printable(e)
  {
    hide CleanKey, KeyName, FlagName, NetModeName, MacModeName, EndsInCr, NetModeOf, MacModeOf, CacheModeOf;
    NetKeyIsClean(NetEnabled);
    NetKeyIsClean(NetModeField);
    NetKeyIsClean(NetHostNic);
    NetKeyIsClean(MacModeField);
    NetKeyIsClean(MacAddress);
    DeviceNamesReadBack(cfg.netMode, cfg.macMode, cfg.diskCacheMode, cfg.netEnabled, cfg.guestArch);
  }

  lemma SwitchPrintable(cfg: VmConfig)
    ensures forall e | e in SwitchEntries(cfg) :: Printable(e)
  {
    hide CleanKey, KeyName, FlagName, CacheModeName, ToDecimal, EndsInCr, NetModeOf, MacModeOf, CacheModeOf;
    SwitchKeyIsClean(AudioEnabled);
    SwitchKeyIsClean(UsbTablet);
    SwitchKeyIsClean(Diagnostics);
    SwitchKeyIsClean(DiskCacheMb);
    SwitchKeyIsClean(DiskCacheModeField);
    DeviceNamesReadBack(cfg.netMode, cfg.macMode, cfg.diskCacheMode, cfg.audioEnabled, cfg.guestArch);
    DeviceNamesReadBack(cfg.netMode, cfg.macMode, cfg.diskCacheMode, cfg.usbTablet, cfg.guestArch);
    DeviceNamesReadBack(cfg.netMode, cfg.macMode, cfg.diskCacheMode, cfg.diagnostics, cfg.guestArch);
    NumberReadsBack(cfg.diskCacheMb, 0);
  }

  lemma DisksPrintable(cfg: VmConfig)
    requires forall d | d in cfg.diskImages :: NL !in d
    ensures forall e | e in DiskEntries(cfg.diskImages) :: Printable(e)
  {
    hide CleanKey, DiskKey;
    DiskKeyIsClean(0);
    assert DiskKey(0) == KeyName(Disk) by { ZerothDiskKey(); }
    forall i | 0 <= i < |cfg.diskImages| ensures Printable(DiskEntries(cfg.diskImages)[i]) {
      DiskKeyIsClean(i);
    }
  }

  lemma ZerothDiskKey()
    ensures DiskKey(0) == KeyName(Disk)
  {}

  lemma EntriesReadBack(cfg: VmConfig)
    ensures ApplyEntries(Stripped(Entries(cfg)), DefaultConfig(cfg.uuid)) ==
            Ok(StripCrs(cfg).(diskImages := DropTrailing(StripAll(cfg.diskImages)), diskCacheMb := 0,
                              diskCacheMode := Uncached, sdnConfig := None))
  {
    hide ApplyEntries, HeadEntries, DiskEntries, BootEntries, NetEntries, SwitchEntries, StripCr, DropTrailing;
    var head, disks := HeadEntries(cfg), DiskEntries(cfg.diskImages);
    var boot, net, switch := BootEntries(cfg), NetEntries(cfg), SwitchEntries(cfg);
    var c0 := DefaultConfig(cfg.uuid);
    HeadReadsBack(cfg, c0);
    var c1 := ApplyEntries(Stripped(head), c0).value;
    DisksReadBack(cfg.diskImages, c1);
    var c2 := ApplyEntries(Stripped(disks), c1).value;
    BootReadsBack(cfg, c2);
    var c3 := ApplyEntries(Stripped(boot), c2).value;
    NetReadsBack(cfg, c3);
    var c4 := ApplyEntries(Stripped(net), c3).value;
    SwitchReadsBack(cfg, c4);
    ApplySections(head, disks, boot, net, switch, c0);
  }

  lemma ApplySections(
      a: seq<Entry>, b: seq<Entry>, c: seq<Entry>, d: seq<Entry>, e: seq<Entry>, c0: VmConfig)
    requires ApplyEntries(Stripped(a), c0).Ok?
    requires var c1 := ApplyEntries(Stripped(a), c0).value; ApplyEntries(Stripped(b), c1).Ok?
    requires
      var c1 := ApplyEntries(Stripped(a), c0).value;
      var c2 := ApplyEntries(Stripped(b), c1).value;
      ApplyEntries(Stripped(c), c2).Ok?
    requires
      var c1 := ApplyEntries(Stripped(a), c0).value;
      var c2 := ApplyEntries(Stripped(b), c1).value;
      var c3 := ApplyEntries(Stripped(c), c2).value;
      ApplyEntries(Stripped(d), c3).Ok?
    ensures
      var c1 := ApplyEntries(Stripped(a), c0).value;
      var c2 := ApplyEntries(Stripped(b), c1).value;
      var c3 := ApplyEntries(Stripped(c), c2).value;
      var c4 := ApplyEntries(Stripped(d), c3).value;
      ApplyEntries(Stripped(a + b + (c + d + e)), c0) == ApplyEntries(Stripped(e), c4)
  {
    hide ApplyEntries, StripCr;
    var sa, sb, sc, sd, se := Stripped(a), Stripped(b), Stripped(c), Stripped(d), Stripped(e);
    assert Stripped(a + b + (c + d + e)) == sa + (sb + (sc + (sd + se)));
    var c1 := ApplyEntries(sa, c0).value;
    var c2 := ApplyEntries(sb, c1).value;
    var c3 := ApplyEntries(sc, c2).value;
    ApplyAppend(sa, sb + (sc + (sd + se)), c0);
    ApplyAppend(sb, sc + (sd + se), c1);
    ApplyAppend(sc, sd + se, c2);
    ApplyAppend(sd, se, c3);
  }

  /** Saving and loading: every configuration whose strings hold no newline comes back in normal
      form, each string less one trailing CR. */
  lemma SaveLoadNormalForm(cfg: VmConfig)
    requires NoNewlines(cfg)
    ensures Parse(cfg.uuid, Render(cfg)) == Ok(Normalize(StripCrs(cfg)))
  {
    hide Entries, ApplyEntries, ApplyLines, Lines, DropTrailing, StripCr, Printable;
    EntriesPrintable(cfg);
    TextReadsBack(Entries(cfg), DefaultConfig(cfg.uuid));
    EntriesReadBack(cfg);
    var disks := StripAll(cfg.diskImages);
    DropTrailingIs(DropTrailing(disks), DropTrailing(disks));
  }

  // ---- Exactly which configurations come back

  lemma SetFieldKeepsNoNewlines(c: VmConfig, field: Field, val: string)
    requires NoNewlines(c) && NL !in val && SetField(c, field, val).Ok?
    ensures NoNewlines(SetField(c, field, val).value)
  {
    var next := SetField(c, field, val).value;
    forall s | IsString(next, s) ensures NL !in s {
      if s != val && s != "" { assert IsString(c, s); }
    }
  }

  lemma SplitOnceNoNewline(line: string)
    requires NL !in line && SplitOnce(line, '=').Some?
    ensures NL !in SplitOnce(line, '=').value.1
  {
    var val, at := SplitOnce(line, '=').value.1, IndexOf(line, '=').value;
    assert forall k | 0 <= k < |val| :: val[k] == line[at + 1 + k];
  }

  lemma {:induction false} LoadedHasNoNewlines(lines: seq<string>, c: VmConfig)
    requires NoNewlines(c) && (forall l | l in lines :: NL !in l) && ApplyLines(lines, c).Ok?
    ensures NoNewlines(ApplyLines(lines, c).value)
  {
    hide SetField, FieldOf, Trim, NoNewlines, SplitOnce;
    if lines != [] {
      var l := lines[0];
      if SplitOnce(l, '=').Some? {
        var (key, val) := SplitOnce(l, '=').value;
        SplitOnceNoNewline(l);
        SetFieldKeepsNoNewlines(c, FieldOf(Trim(key)), val);
      }
      LoadedHasNoNewlines(lines[1..], ApplyLine(c, l).value);
    }
  }

  /** No loaded string ever holds a newline. */
  lemma ParsedHasNoNewlines(uuid: string, content: string)
    requires Parse(uuid, content).Ok?
    ensures NoNewlines(Parse(uuid, content).value)
  {
    hide ApplyLines, Lines, DropTrailing;
    LinesHaveNoNewline(content);
    assert NoNewlines(DefaultConfig(uuid));
    LoadedHasNoNewlines(Lines(content), DefaultConfig(uuid));
    var raw := ApplyLines(Lines(content), DefaultConfig(uuid)).value;
    var cfg := Parse(uuid, content).value;
    forall s | IsString(cfg, s) ensures IsString(raw, s) {}
  }

  lemma StripCrsIsIdentity(cfg: VmConfig)
    ensures Normalize(StripCrs(cfg)) == Normalize(cfg) <==> NoTrailingCrs(cfg)
  {
    if NoTrailingCrs(cfg) {
      assert IsString(cfg, cfg.name) && IsString(cfg, cfg.isoImage);
      assert IsString(cfg, cfg.netHostNic) && IsString(cfg, cfg.macAddress);
      forall i | 0 <= i < |cfg.diskImages| ensures StripCr(cfg.diskImages[i]) == cfg.diskImages[i] {
        assert IsString(cfg, cfg.diskImages[i]);
      }
      assert StripAll(cfg.diskImages) == cfg.diskImages;
    } else {
      var s :| IsString(cfg, s) && EndsInCr(s);
      assert StripCr(s) != s;
      if s in cfg.diskImages {
        DiskWithCrIsLost(cfg.diskImages, s);
      }
    }
  }

  lemma DiskWithCrIsLost(disks: Disks, s: string)
    requires s in disks && EndsInCr(s)
    ensures DropTrailing(StripAll(disks)) != DropTrailing(disks)
  {
    var i :| 0 <= i < |disks| && disks[i] == s;
    var kept := DropTrailing(disks);
    assert i < |kept| && kept[i] == s;
    var strip := DropTrailing(StripAll(disks));
    if i < |strip| {
      assert strip[i] == StripCr(s);
    }
  }

  /** Loading what was saved yields the normal form of the configuration if and only if no string
      holds a newline or ends in a carriage return. */
  lemma RoundTripExactly(cfg: VmConfig)
    ensures Parse(cfg.uuid, Render(cfg)) == Ok(Normalize(cfg)) <==> NoNewlines(cfg) && NoTrailingCrs(cfg)
  {
    hide Parse, Render, StripCrs, DropTrailing, NoTrailingCrs;
    if NoNewlines(cfg) {
      SaveLoadNormalForm(cfg);
      StripCrsIsIdentity(cfg);
    } else {
      if Parse(cfg.uuid, Render(cfg)) == Ok(Normalize(cfg)) {
        ParsedHasNoNewlines(cfg.uuid, Render(cfg));
        var s :| IsString(cfg, s) && NL in s;
        NormalizeKeepsStrings(cfg, s);
        assert false;
      }
    }
  }

  lemma NormalizeKeepsStrings(cfg: VmConfig, s: string)
    requires IsString(cfg, s) && s != ""
    ensures IsString(Normalize(cfg), s)
  {
    if s in cfg.diskImages {
      var i :| 0 <= i < |cfg.diskImages| && cfg.diskImages[i] == s;
      assert DropTrailing(cfg.diskImages)[i] == s;
    }
  }

  function SaveLoad(cfg: VmConfig): Result<VmConfig, LoadError> { Parse(cfg.uuid, Render(cfg)) }

  /** A second save and load changes nothing if and only if no string ended in two carriage
      returns to begin with. */
  lemma SaveLoadIdempotence(cfg: VmConfig)
    requires NoNewlines(cfg)
    ensures SaveLoad(cfg).Ok?
    ensures SaveLoad(SaveLoad(cfg).value) == SaveLoad(cfg) <==>
            forall s | IsString(cfg, s) :: !EndsInCr(StripCr(s))
  {
    hide Parse, Render, DropTrailing, StripCr, EndsInCr;
    SaveLoadNormalForm(cfg);
    var once := Normalize(StripCrs(cfg));
    NormalFormStrings(cfg);
    NormalizeIsIdempotent(StripCrs(cfg));
    RoundTripExactly(once);
  }

  lemma NormalizeIsIdempotent(cfg: VmConfig)
    ensures Normalize(Normalize(cfg)) == Normalize(cfg)
  {
    DropTrailingIs(DropTrailing(cfg.diskImages), DropTrailing(cfg.diskImages));
  }

  lemma NormalFormStrings(cfg: VmConfig)
    requires NoNewlines(cfg)
    ensures NoNewlines(Normalize(StripCrs(cfg)))
    ensures NoTrailingCrs(Normalize(StripCrs(cfg))) <==> forall s | IsString(cfg, s) :: !EndsInCr(StripCr(s))
  {
    hide DropTrailing;
    var once := Normalize(StripCrs(cfg));
    forall t | IsString(once, t) ensures exists s :: IsString(cfg, s) && t == StripCr(s) {
      StrippedStringOrigin(cfg, t);
    }
    forall s | IsString(cfg, s) && StripCr(s) != "" ensures IsString(once, StripCr(s)) {
      if s in cfg.diskImages {
        var i :| 0 <= i < |cfg.diskImages| && cfg.diskImages[i] == s;
        assert StripAll(cfg.diskImages)[i] == StripCr(s);
      }
      assert IsString(StripCrs(cfg), StripCr(s));
      NormalizeKeepsStrings(StripCrs(cfg), StripCr(s));
    }
  }

  lemma StrippedStringOrigin(cfg: VmConfig, t: string)
    requires IsString(Normalize(StripCrs(cfg)), t)
    ensures exists s :: IsString(cfg, s) && t == StripCr(s)
  {
    assert IsString(cfg, cfg.name) && IsString(cfg, cfg.isoImage);
    assert IsString(cfg, cfg.netHostNic) && IsString(cfg, cfg.macAddress);
    if t in DropTrailing(StripAll(cfg.diskImages)) {
      var i :| 0 <= i < |DropTrailing(StripAll(cfg.diskImages))| && DropTrailing(StripAll(cfg.diskImages))[i] == t;
      assert IsString(cfg, cfg.diskImages[i]) && t == StripCr(cfg.diskImages[i]);
    }
  }

  // ---- Exactly which files fail to load

  /** A line that brings the reader down: disk number zero, or a named disk past the capacity. */
  predicate Breaks(line: string) {
    match SplitOnce(line, '=')
    case None => false
    case Some((key, val)) =>
      match FieldOf(Trim(key))
      case NumberedDisk(suffix) => (
        match ParseUnsigned(suffix, USIZE_MAX)
        case None => false
        case Some(idx) => idx == 0 || (val != "" && idx > MAX_DISKS))
      case _ => false
  }

  lemma {:induction false} ApplyLinesFailsExactly(lines: seq<string>, c: VmConfig)
    ensures ApplyLines(lines, c).Err? <==> exists l :: l in lines && Breaks(l)
  {
    hide FieldOf, Trim, ParseUnsigned, SplitOnce;
    if lines != [] {
      assert lines == [lines[0]] + lines[1..];
      assert ApplyLine(c, lines[0]).Err? <==> Breaks(lines[0]);
      if ApplyLine(c, lines[0]).Ok? {
        ApplyLinesFailsExactly(lines[1..], ApplyLine(c, lines[0]).value);
      }
    }
  }

  /** Loading fails if and only if some line breaks it, whatever the rest of the file says. */
  lemma LoadFailsExactly(uuid: string, content: string)
    ensures Parse(uuid, content).Err? <==> exists l :: l in Lines(content) && Breaks(l)
  {
    hide ApplyLines, Lines, Breaks, DropTrailing;
    ApplyLinesFailsExactly(Lines(content), DefaultConfig(uuid));
  }

  // ---- What the reader passes over

  /** A line without an equals sign, or whose trimmed key is none of the reader's. */
  predicate IsNoise(line: string) {
    match SplitOnce(line, '=')
    case None => true
    case Some((key, _)) => FieldOf(Trim(key)).Unknown? || FieldOf(Trim(key)).Jit?
  }

  /** Such a line changes nothing, wherever it stands. */
  lemma {:induction false} NoiseIsIgnored(before: seq<string>, line: string, after: seq<string>, c: VmConfig)
    requires IsNoise(line)
    ensures ApplyLines(before + [line] + after, c) == ApplyLines(before + after, c)
  {
    hide FieldOf, Trim, SplitOnce;
    if before == [] {
      assert ([line] + after)[1..] == after && [] + after == after && [] + [line] + after == [line] + after;
      assert ApplyLine(c, line) == Ok(c);
    } else {
      assert (before + [line] + after)[1..] == before[1..] + [line] + after;
      assert (before + after)[1..] == before[1..] + after;
      if ApplyLine(c, before[0]).Ok? {
        NoiseIsIgnored(before[1..], line, after, ApplyLine(c, before[0]).value);
      }
    }
  }
}
