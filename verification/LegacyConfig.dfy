// The legacy `key=value` configuration file of a virtual machine: its writer and its reader.
module LegacyConfig {
  import opened Basics
  import opened Wrappers
  import opened StdText

  const USIZE_MAX: nat := 0xFFFF_FFFF_FFFF_FFFF
  /** The most 24-byte strings a vector can hold; growing past it panics. */
  const MAX_DISKS: nat := 0x7FFF_FFFF_FFFF_FFFF / 24

  lemma CapacityIsExact()
    ensures MAX_DISKS * 24 <= 0x7FFF_FFFF_FFFF_FFFF < (MAX_DISKS + 1) * 24
  {}

  type Disks = d: seq<string> | |d| <= MAX_DISKS

  datatype BootOrder = DiskFirst | CdFirst | FloppyFirst
  datatype BiosType = CoreVm | SeaBios | Uefi
  datatype RamAlloc = Preallocate | OnDemand
  datatype NetMode = Disconnected | UserMode | Bridge
  datatype MacMode = Dynamic | Static
  datatype DiskCacheMode = WriteBack | WriteThrough | Uncached
  datatype GpuModel = StdVga | VirtioGpu | IntelHD
  datatype NicModel = E1000 | VirtioNet
  datatype GuestArch = X86 | X64
  datatype GuestOs =
    | Other | Windows7 | Windows8 | Windows10 | Windows11
    | WindowsServer2016 | WindowsServer2019 | WindowsServer2022
    | Ubuntu | Debian | Fedora | OpenSuse | RedHat | Arch | LinuxOther | AnyOs | FreeBsd | DosFreeDos

  datatype SdnNetConfig = SdnNetConfig(
    netPrefix: seq<nat>, gatewayIp: seq<nat>, dnsIp: seq<nat>, guestIp: seq<nat>, netmask: seq<nat>,
    upstreamDns: seq<string>, dnsDomain: string, pxeBootFile: string, pxeNextServer: seq<nat>)

  datatype VmConfig = VmConfig(
    uuid: string,
    name: string,
    guestOs: GuestOs,
    guestArch: GuestArch,
    ramMb: u32,
    cpuCores: u32,
    diskImages: Disks,
    isoImage: string,
    bootOrder: BootOrder,
    biosType: BiosType,
    gpuModel: GpuModel,
    vramMb: u32,
    nicModel: NicModel,
    netEnabled: bool,
    netMode: NetMode,
    netHostNic: string,
    macMode: MacMode,
    macAddress: string,
    audioEnabled: bool,
    usbTablet: bool,
    ramAlloc: RamAlloc,
    diagnostics: bool,
    diskCacheMb: u32,
    diskCacheMode: DiskCacheMode,
    sdnConfig: Option<SdnNetConfig>)

  function DefaultConfig(uuid: string): VmConfig {
    VmConfig(
      uuid, "New VM", Other, X64, 256, 1, [], "", CdFirst, SeaBios, StdVga, 16, E1000, false, UserMode, "",
      Dynamic, "", true, false, OnDemand, false, 0, Uncached, None)
  }

  // ---- Writing

  function GuestOsName(os: GuestOs): string {
    match os
    case Other => "other"
    case Windows7 => "win7"
    case Windows8 => "win8"
    case Windows10 => "win10"
    case Windows11 => "win11"
    case WindowsServer2016 => "winserver2016"
    case WindowsServer2019 => "winserver2019"
    case WindowsServer2022 => "winserver2022"
    case Ubuntu => "ubuntu"
    case Debian => "debian"
    case Fedora => "fedora"
    case OpenSuse => "opensuse"
    case RedHat => "redhat"
    case Arch => "arch"
    case LinuxOther => "linux"
    case AnyOs => "anyos"
    case FreeBsd => "freebsd"
    case DosFreeDos => "dos"
  }

  function GuestOsOf(s: string): GuestOs {
    if s == "win7" then Windows7
    else if s == "win8" then Windows8
    else if s == "win10" then Windows10
    else if s == "win11" then Windows11
    else if s == "winserver2016" then WindowsServer2016
    else if s == "winserver2019" then WindowsServer2019
    else if s == "winserver2022" then WindowsServer2022
    else if s == "ubuntu" then Ubuntu
    else if s == "debian" then Debian
    else if s == "fedora" then Fedora
    else if s == "opensuse" then OpenSuse
    else if s == "redhat" then RedHat
    else if s == "arch" then Arch
    else if s == "linux" then LinuxOther
    else if s == "anyos" then AnyOs
    else if s == "freebsd" then FreeBsd
    else if s == "dos" then DosFreeDos
    else Other
  }

  function BootName(b: BootOrder): string {
    match b case DiskFirst => "disk" case CdFirst => "cd" case FloppyFirst => "floppy"
  }

  function BiosName(b: BiosType): string {
    match b case CoreVm => "corevm" case SeaBios => "seabios" case Uefi => "uefi"
  }

  function RamAllocName(a: RamAlloc): string {
    match a case Preallocate => "preallocate" case OnDemand => "ondemand"
  }

  function NetModeName(m: NetMode): string {
    match m case Disconnected => "disconnected" case UserMode => "usermode" case Bridge => "bridge"
  }

  function MacModeName(m: MacMode): string {
    match m case Dynamic => "dynamic" case Static => "static"
  }

  function GpuName(g: GpuModel): string {
    match g case StdVga => "stdvga" case VirtioGpu => "virtiogpu" case IntelHD => "intelhd"
  }

  function NicName(n: NicModel): string {
    match n case E1000 => "e1000" case VirtioNet => "virtionet"
  }

  function ArchName(a: GuestArch): string {
    match a case X86 => "x86" case X64 => "x64"
  }

  function CacheModeName(m: DiskCacheMode): string {
    match m case WriteBack => "writeback" case WriteThrough => "writethrough" case Uncached => "none"
  }

  function FlagName(b: bool): string { if b then "1" else "0" }

  /** The settings of the file, one for each arm of the reader's key match. */
  datatype Field =
    | Name | GuestOsField | GuestArchField | Ram | CpuCores | Disk | NumberedDisk(suffix: string)
    | Iso | Boot | Bios | Jit | RamAllocField | Gpu | VramMb | Nic | NetEnabled | NetModeField | NetHostNic
    | MacModeField | MacAddress | AudioEnabled | UsbTablet | Diagnostics | DiskCacheMb | DiskCacheModeField
    | Unknown

  /** The key the writer prints for a field. */
  function KeyName(f: Field): string {
    match f
    case Name => "name"
    case GuestOsField => "guest_os"
    case GuestArchField => "guest_arch"
    case Ram => "ram"
    case CpuCores => "cpu_cores"
    case Disk => "disk"
    case NumberedDisk(suffix) => "disk" + suffix
    case Iso => "iso"
    case Boot => "boot"
    case Bios => "bios"
    case Jit => "jit"
    case RamAllocField => "ram_alloc"
    case Gpu => "gpu"
    case VramMb => "vram_mb"
    case Nic => "nic"
    case NetEnabled => "net_enabled"
    case NetModeField => "net_mode"
    case NetHostNic => "net_host_nic"
    case MacModeField => "mac_mode"
    case MacAddress => "mac_address"
    case AudioEnabled => "audio_enabled"
    case UsbTablet => "usb_tablet"
    case Diagnostics => "diagnostics"
    case DiskCacheMb => "disk_cache_mb"
    case DiskCacheModeField => "disk_cache_mode"
    case Unknown => ""
  }

  type Entry = (string, string)

  function Line(e: Entry): string { e.0 + ['='] + e.1 }

  function Text(es: seq<Entry>): string {
    if es == [] then "" else Line(es[0]) + [NL] + Text(es[1..])
  }

  function HeadEntries(cfg: VmConfig): seq<Entry> {
    [(KeyName(Name), cfg.name),
     (KeyName(GuestOsField), GuestOsName(cfg.guestOs)),
     (KeyName(GuestArchField), ArchName(cfg.guestArch)),
     (KeyName(Ram), ToDecimal(cfg.ramMb)),
     (KeyName(CpuCores), ToDecimal(cfg.cpuCores))]
  }

  function DiskField(i: nat): Field {
    if i == 0 then Disk else NumberedDisk(ToDecimal(i + 1))
  }

  function DiskKey(i: nat): string {
    KeyName(DiskField(i))
  }

  function DiskEntries(disks: seq<string>): seq<Entry> {
    if disks == [] then [(KeyName(Disk), "")] else seq(|disks|, i requires 0 <= i < |disks| => (DiskKey(i), disks[i]))
  }

  function BootEntries(cfg: VmConfig): seq<Entry> {
    [(KeyName(Iso), cfg.isoImage),
     (KeyName(Boot), BootName(cfg.bootOrder)),
     (KeyName(Bios), BiosName(cfg.biosType)),
     (KeyName(RamAllocField), RamAllocName(cfg.ramAlloc)),
     (KeyName(Gpu), GpuName(cfg.gpuModel)),
     (KeyName(VramMb), ToDecimal(cfg.vramMb)),
     (KeyName(Nic), NicName(cfg.nicModel))]
  }

  function NetEntries(cfg: VmConfig): seq<Entry> {
    [(KeyName(NetEnabled), FlagName(cfg.netEnabled)),
     (KeyName(NetModeField), NetModeName(cfg.netMode)),
     (KeyName(NetHostNic), cfg.netHostNic),
     (KeyName(MacModeField), MacModeName(cfg.macMode)),
     (KeyName(MacAddress), cfg.macAddress)]
  }

  function SwitchEntries(cfg: VmConfig): seq<Entry> {
    [(KeyName(AudioEnabled), FlagName(cfg.audioEnabled)),
     (KeyName(UsbTablet), FlagName(cfg.usbTablet)),
     (KeyName(Diagnostics), FlagName(cfg.diagnostics)),
     (KeyName(DiskCacheMb), ToDecimal(cfg.diskCacheMb)),
     (KeyName(DiskCacheModeField), CacheModeName(cfg.diskCacheMode))]
  }

  function TailEntries(cfg: VmConfig): seq<Entry> {
    BootEntries(cfg) + NetEntries(cfg) + SwitchEntries(cfg)
  }

  /** What the writer puts in the file: one line per entry, in this order. */
  function Entries(cfg: VmConfig): seq<Entry> {
    HeadEntries(cfg) + DiskEntries(cfg.diskImages) + TailEntries(cfg)
  }

  function Render(cfg: VmConfig): string { Text(Entries(cfg)) }

  lemma {:induction false} TextAppend(a: seq<Entry>, b: seq<Entry>)
    ensures Text(a + b) == Text(a) + Text(b)
  {
    hide Line;
    if a == [] {
      assert a + b == b;
    } else {
      TextAppend(a[1..], b);
      assert (a + b)[0] == a[0] && (a + b)[1..] == a[1..] + b;
      var first := Line(a[0]) + [NL];
      assert first + (Text(a[1..]) + Text(b)) == first + Text(a[1..]) + Text(b);
    }
  }

  method SaveLegacy(cfg: VmConfig) returns (content: string)
    ensures content == Render(cfg)
  {
    hide HeadEntries, TailEntries, ToDecimal;
    var diskLines := "";
    var entries := DiskEntries(cfg.diskImages);
    for i := 0 to |cfg.diskImages|
      invariant diskLines == Text(DiskEntries(cfg.diskImages)[..i])
    {
      ghost var done := DiskEntries(cfg.diskImages);
      assert done[..i + 1] == done[..i] + [done[i]];
      TextAppend(done[..i], [done[i]]);
      var d := cfg.diskImages[i];
      if i == 0 {
        diskLines := diskLines + (Line(("disk", d)) + [NL]);
      } else {
        diskLines := diskLines + (Line(("disk" + ToDecimal(i + 1), d)) + [NL]);
      }
    }
    if cfg.diskImages == [] {
      diskLines := diskLines + (Line(("disk", "")) + [NL]);
    } else {
      assert entries[..|cfg.diskImages|] == entries;
    }
    content := Text(HeadEntries(cfg)) + diskLines + Text(TailEntries(cfg));
    TextAppend(HeadEntries(cfg), entries);
    TextAppend(HeadEntries(cfg) + entries, TailEntries(cfg));
  }

  // ---- Reading

  /** Arms in source order: the numbered-disk guard comes before both cache settings. */
  function FieldOf(key: string): Field {
    if key == "name" then Name
    else if key == "guest_os" then GuestOsField
    else if key == "guest_arch" then GuestArchField
    else if key == "ram" then Ram
    else if key == "cpu_cores" then CpuCores
    else if key == "disk" then Disk
    else if "disk" <= key && |key| > 4 then NumberedDisk(key[4..])
    else if key == "iso" then Iso
    else if key == "boot" then Boot
    else if key == "bios" then Bios
    else if key == "jit" then Jit
    else if key == "ram_alloc" then RamAllocField
    else if key == "gpu" then Gpu
    else if key == "vram_mb" then VramMb
    else if key == "nic" then Nic
    else DeviceFieldOf(key)
  }

  function DeviceFieldOf(key: string): Field {
    if key == "net_enabled" then NetEnabled
    else if key == "net_mode" then NetModeField
    else if key == "net_host_nic" then NetHostNic
    else if key == "mac_mode" then MacModeField
    else if key == "mac_address" then MacAddress
    else if key == "audio_enabled" then AudioEnabled
    else if key == "usb_tablet" then UsbTablet
    else if key == "diagnostics" then Diagnostics
    else if key == "disk_cache_mb" then DiskCacheMb
    else if key == "disk_cache_mode" then DiskCacheModeField
    else Unknown
  }

  function NumberOr(val: string, fallback: u32): u32 {
    match ParseUnsigned(val, U32_MAX)
    case None => fallback
    case Some(n) => if n <= U32_MAX then n else fallback
  }

  function ArchOf(val: string): GuestArch { if val == "x86" then X86 else X64 }

  function BootOf(val: string): BootOrder {
    if val == "disk" then DiskFirst else if val == "floppy" then FloppyFirst else CdFirst
  }

  function BiosOf(val: string): BiosType {
    if val == "corevm" then CoreVm else if val == "uefi" then Uefi else SeaBios
  }

  function RamAllocOf(val: string): RamAlloc { if val == "preallocate" then Preallocate else OnDemand }

  function GpuOf(val: string): GpuModel {
    if val == "virtiogpu" || val == "virtio-gpu" || val == "virtio_gpu" then VirtioGpu
    else if val == "intelhd" || val == "intel-hd" || val == "intel_hd" then IntelHD
    else StdVga
  }

  function NicOf(val: string): NicModel {
    if val == "virtionet" || val == "virtio-net" || val == "virtio_net" then VirtioNet else E1000
  }

  function NetModeOf(val: string): NetMode {
    if val == "bridge" then Bridge else if val == "disconnected" then Disconnected else UserMode
  }

  function MacModeOf(val: string): MacMode { if val == "static" then Static else Dynamic }

  function CacheModeOf(val: string): DiskCacheMode {
    if val == "writethrough" then WriteThrough else if val == "none" then Uncached else WriteBack
  }

  /** The two ways a line brings the reader down. */
  datatype LoadError = IndexUnderflow | CapacityOverflow

  /** The list grown with empty names to at least `n` entries. */
  function Pad(disks: seq<string>, n: nat): (r: seq<string>)
    ensures |r| == if |disks| < n then n else |disks|
    ensures forall i | 0 <= i < |r| :: r[i] == if i < |disks| then disks[i] else ""
  {
    if |disks| < n then disks + seq(n - |disks|, _ => "") else disks
  }

  function SetDisk(disks: Disks, pos: nat, val: string): Disks
    requires pos < MAX_DISKS
  {
    Pad(disks, pos + 1)[pos := val]
  }

  function SetField(cfg: VmConfig, field: Field, val: string): Result<VmConfig, LoadError> {
    match field
    case Name => Ok(cfg.(name := val))
    case GuestOsField => Ok(cfg.(guestOs := GuestOsOf(val)))
    case GuestArchField => Ok(cfg.(guestArch := ArchOf(val)))
    case Ram => Ok(cfg.(ramMb := NumberOr(val, 256)))
    case CpuCores => Ok(cfg.(cpuCores := NumberOr(val, 1)))
    case Disk => if val == "" then Ok(cfg) else Ok(cfg.(diskImages := SetDisk(cfg.diskImages, 0, val)))
    case NumberedDisk(suffix) => (
      match ParseUnsigned(suffix, USIZE_MAX)
      case None => Ok(cfg)
      case Some(idx) =>
        if idx == 0 then Err(IndexUnderflow)
        else if val == "" then Ok(cfg)
        else if idx > MAX_DISKS then Err(CapacityOverflow)
        else Ok(cfg.(diskImages := SetDisk(cfg.diskImages, idx - 1, val))))
    case Iso => Ok(cfg.(isoImage := val))
    case Boot => Ok(cfg.(bootOrder := BootOf(val)))
    case Bios => Ok(cfg.(biosType := BiosOf(val)))
    case Jit => Ok(cfg)
    case RamAllocField => Ok(cfg.(ramAlloc := RamAllocOf(val)))
    case Gpu => Ok(cfg.(gpuModel := GpuOf(val)))
    case VramMb => Ok(cfg.(vramMb := NumberOr(val, 16)))
    case Nic => Ok(cfg.(nicModel := NicOf(val)))
    case NetEnabled => Ok(cfg.(netEnabled := val == "1"))
    case NetModeField => Ok(cfg.(netMode := NetModeOf(val)))
    case NetHostNic => Ok(cfg.(netHostNic := val))
    case MacModeField => Ok(cfg.(macMode := MacModeOf(val)))
    case MacAddress => Ok(cfg.(macAddress := val))
    case AudioEnabled => Ok(cfg.(audioEnabled := val == "1"))
    case UsbTablet => Ok(cfg.(usbTablet := val == "1"))
    case Diagnostics => Ok(cfg.(diagnostics := val == "1"))
    case DiskCacheMb => Ok(cfg.(diskCacheMb := NumberOr(val, 32)))
    case DiskCacheModeField => Ok(cfg.(diskCacheMode := CacheModeOf(val)))
    case Unknown => Ok(cfg)
  }

  function ApplyLine(cfg: VmConfig, line: string): Result<VmConfig, LoadError> {
    match SplitOnce(line, '=')
    case None => Ok(cfg)
    case Some((key, val)) => SetField(cfg, FieldOf(Trim(key)), val)
  }

  function ApplyLines(lines: seq<string>, cfg: VmConfig): Result<VmConfig, LoadError> {
    if lines == [] then Ok(cfg)
    else
      match ApplyLine(cfg, lines[0])
      case Err(e) => Err(e)
      case Ok(next) => ApplyLines(lines[1..], next)
  }

  function DropTrailing(disks: seq<string>): (r: seq<string>)
    ensures r <= disks
    ensures r != [] ==> r[|r| - 1] != ""
    ensures forall i | |r| <= i < |disks| :: disks[i] == ""
  {
    if disks != [] && disks[|disks| - 1] == "" then DropTrailing(disks[..|disks| - 1]) else disks
  }

  function Finish(r: Result<VmConfig, LoadError>): Result<VmConfig, LoadError> {
    match r
    case Err(e) => Err(e)
    case Ok(cfg) => Ok(cfg.(diskImages := DropTrailing(cfg.diskImages)))
  }

  function Parse(uuid: string, content: string): Result<VmConfig, LoadError> {
    Finish(ApplyLines(Lines(content), DefaultConfig(uuid)))
  }

  method PlaceDisk(disks: Disks, pos: nat, val: string) returns (r: Result<Disks, LoadError>)
    ensures r == if pos < MAX_DISKS then Ok(SetDisk(disks, pos, val)) else Err(CapacityOverflow)
  {
    var list: seq<string> := disks;
    while |list| <= pos
      invariant |disks| <= |list| <= MAX_DISKS
      invariant list == Pad(disks, |list|)
      invariant |list| <= pos + 1 || list == disks
    {
      if |list| == MAX_DISKS {
        return Err(CapacityOverflow);
      }
      list := list + [""];
    }
    assert list == Pad(disks, pos + 1);
    list := list[pos := val];
    r := Ok(list);
  }

  /** One line of the file, applied to the configuration read so far. */
  method ReadLine(cfg: VmConfig, line: string) returns (r: Result<VmConfig, LoadError>)
    ensures r == ApplyLine(cfg, line)
  {
    hide FieldOf, Trim, ParseUnsigned;
    var split := SplitOnce(line, '=');
    if split.None? {
      return Ok(cfg);
    }
    var (key, val) := split.value;
    var field := FieldOf(Trim(key));
    if field.Disk? {
      var disks := cfg.diskImages;
      if val != "" {
        if disks == [] {
          disks := [val];
        } else {
          disks := disks[0 := val];
        }
        assert disks == SetDisk(cfg.diskImages, 0, val);
      }
      return Ok(cfg.(diskImages := disks));
    } else if field.NumberedDisk? {
      var parsed := ParseUnsigned(field.suffix, USIZE_MAX);
      if parsed.None? {
        return Ok(cfg);
      }
      if parsed.value == 0 {
        return Err(IndexUnderflow);
      }
      var pos := parsed.value - 1;
      if val == "" {
        return Ok(cfg);
      }
      var placed := PlaceDisk(cfg.diskImages, pos, val);
      if placed.Err? {
        return Err(placed.error);
      }
      return Ok(cfg.(diskImages := placed.value));
    } else {
      return SetField(cfg, field, val);
    }
  }

  method LoadLegacy(uuid: string, content: string) returns (r: Result<VmConfig, LoadError>)
    ensures r == Parse(uuid, content)
  {
    hide ApplyLine, Lines, DefaultConfig;
    var cfg := DefaultConfig(uuid);
    var lines := Lines(content);
    for i := 0 to |lines|
      invariant ApplyLines(lines[i..], cfg) == ApplyLines(lines, DefaultConfig(uuid))
    {
      assert lines[i..][1..] == lines[i + 1..];
      var next := ReadLine(cfg, lines[i]);
      if next.Err? {
        return next;
      }
      cfg := next.value;
    }
    var disks := cfg.diskImages;
    while disks != [] && disks[|disks| - 1] == ""
      invariant |disks| <= MAX_DISKS
      invariant DropTrailing(disks) == DropTrailing(cfg.diskImages)
    {
      disks := disks[..|disks| - 1];
    }
    return Ok(cfg.(diskImages := disks));
  }
}
