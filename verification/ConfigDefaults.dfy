// What a configuration is when the file says nothing, or nothing readable, about a setting.
module ConfigDefaults {
  import opened Basics
  import opened Wrappers
  import opened StdText
  import opened LegacyConfig

  /** The setting has the value a new machine starts with. */
  predicate HasDefault(c: VmConfig, f: Field) {
    match f
    case Name => c.name == "New VM"
    case GuestOsField => c.guestOs == Other
    case GuestArchField => c.guestArch == X64
    case Ram => c.ramMb == 256
    case CpuCores => c.cpuCores == 1
    case Disk => c.diskImages == []
    case NumberedDisk(_) => c.diskImages == []
    case Iso => c.isoImage == ""
    case Boot => c.bootOrder == CdFirst
    case Bios => c.biosType == SeaBios
    case Jit => true
    case RamAllocField => c.ramAlloc == OnDemand
    case Gpu => c.gpuModel == StdVga
    case VramMb => c.vramMb == 16
    case Nic => c.nicModel == E1000
    case NetEnabled => !c.netEnabled
    case NetModeField => c.netMode == UserMode
    case NetHostNic => c.netHostNic == ""
    case MacModeField => c.macMode == Dynamic
    case MacAddress => c.macAddress == ""
    case AudioEnabled => c.audioEnabled
    case UsbTablet => !c.usbTablet
    case Diagnostics => !c.diagnostics
    case DiskCacheMb => c.diskCacheMb == 0
    case DiskCacheModeField => c.diskCacheMode == Uncached
    case Unknown => c.sdnConfig == None
  }

  predicate IsDisk(f: Field) { f.Disk? || f.NumberedDisk? }

  /** The line gives a value to the setting; all disk keys are about one setting. */
  predicate Sets(line: string, f: Field) {
    match SplitOnce(line, '=')
    case None => false
    case Some((key, _)) => var g := FieldOf(Trim(key)); !g.Unknown? && (g == f || (IsDisk(g) && IsDisk(f)))
  }

  lemma OtherFieldKeeps(c: VmConfig, g: Field, val: string, f: Field)
    requires HasDefault(c, f) && g != f && !(IsDisk(g) && IsDisk(f)) && SetField(c, g, val).Ok?
    ensures HasDefault(SetField(c, g, val).value, f)
  {
    hide NumberOr, GuestOsOf, ArchOf, BootOf, BiosOf, RamAllocOf, GpuOf, NicOf, NetModeOf, MacModeOf, CacheModeOf;
    hide SetDisk, ParseUnsigned;
    match g
    case Name =>
    case GuestOsField =>
    case GuestArchField =>
    case Ram =>
    case CpuCores =>
    case Disk =>
    case NumberedDisk(_) =>
    case Iso =>
    case Boot =>
    case Bios =>
    case Jit =>
    case RamAllocField =>
    case Gpu =>
    case VramMb =>
    case Nic =>
    case NetEnabled =>
    case NetModeField =>
    case NetHostNic =>
    case MacModeField =>
    case MacAddress =>
    case AudioEnabled =>
    case UsbTablet =>
    case Diagnostics =>
    case DiskCacheMb =>
    case DiskCacheModeField =>
    case Unknown =>
  }

  lemma OtherLineKeeps(c: VmConfig, line: string, f: Field)
    requires HasDefault(c, f) && !Sets(line, f) && ApplyLine(c, line).Ok?
    ensures HasDefault(ApplyLine(c, line).value, f)
  {
    hide FieldOf, SetField, HasDefault, Trim, SplitOnce;
    if SplitOnce(line, '=').Some? {
      var (key, val) := SplitOnce(line, '=').value;
      if FieldOf(Trim(key)).Unknown? {
        UnknownSetsNothing(c, val);
      } else {
        OtherFieldKeeps(c, FieldOf(Trim(key)), val, f);
      }
    }
  }

  lemma UnknownSetsNothing(c: VmConfig, val: string)
    ensures SetField(c, Unknown, val) == Ok(c)
  {}

  lemma {:induction false} OtherLinesKeep(c: VmConfig, lines: seq<string>, f: Field)
    requires HasDefault(c, f) && ApplyLines(lines, c).Ok? && forall l | l in lines :: !Sets(l, f)
    ensures HasDefault(ApplyLines(lines, c).value, f)
    decreases |lines|
  {
    hide HasDefault, Sets, ApplyLine;
    if lines != [] {
      OtherLineKeeps(c, lines[0], f);
      OtherLinesKeep(ApplyLine(c, lines[0]).value, lines[1..], f);
    }
  }

  /** A setting no line of a file is about has its default after loading, whatever else the file says; and
      the identifier is the given one. */
  lemma UnsetIsDefault(uuid: string, content: string, f: Field)
    requires Parse(uuid, content).Ok? && forall l | l in Lines(content) :: !Sets(l, f)
    ensures HasDefault(Parse(uuid, content).value, f)
  {
    hide HasDefault, Sets, ApplyLines, Lines, DropTrailing;
    StartsDefault(uuid, f);
    OtherLinesKeep(DefaultConfig(uuid), Lines(content), f);
    FinishKeeps(ApplyLines(Lines(content), DefaultConfig(uuid)).value, f);
  }

  lemma StartsDefault(uuid: string, f: Field)
    ensures HasDefault(DefaultConfig(uuid), f)
  {}

  lemma FinishKeeps(c: VmConfig, f: Field)
    requires HasDefault(c, f)
    ensures HasDefault(c.(diskImages := DropTrailing(c.diskImages)), f)
  {}

  lemma FieldKeepsUuid(c: VmConfig, f: Field, val: string)
    requires SetField(c, f, val).Ok?
    ensures SetField(c, f, val).value.uuid == c.uuid && SetField(c, f, val).value.sdnConfig == c.sdnConfig
  {
    hide NumberOr, GuestOsOf, ArchOf, BootOf, BiosOf, RamAllocOf, GpuOf, NicOf, NetModeOf, MacModeOf, CacheModeOf;
    hide SetDisk, ParseUnsigned;
    match f
    case Name =>
    case GuestOsField =>
    case GuestArchField =>
    case Ram =>
    case CpuCores =>
    case Disk =>
    case NumberedDisk(_) =>
    case Iso =>
    case Boot =>
    case Bios =>
    case Jit =>
    case RamAllocField =>
    case Gpu =>
    case VramMb =>
    case Nic =>
    case NetEnabled =>
    case NetModeField =>
    case NetHostNic =>
    case MacModeField =>
    case MacAddress =>
    case AudioEnabled =>
    case UsbTablet =>
    case Diagnostics =>
    case DiskCacheMb =>
    case DiskCacheModeField =>
    case Unknown =>
  }

  lemma {:induction false} LinesKeepUuid(c: VmConfig, lines: seq<string>)
    requires ApplyLines(lines, c).Ok?
    ensures ApplyLines(lines, c).value.uuid == c.uuid && ApplyLines(lines, c).value.sdnConfig == c.sdnConfig
    decreases |lines|
  {
    hide FieldOf, SetField, Trim, SplitOnce;
    if lines != [] {
      if SplitOnce(lines[0], '=').Some? {
        var (key, val) := SplitOnce(lines[0], '=').value;
        FieldKeepsUuid(c, FieldOf(Trim(key)), val);
      }
      LinesKeepUuid(ApplyLine(c, lines[0]).value, lines[1..]);
    }
  }

  /** A machine's identifier comes from the name of the file alone, and a file never sets up an SDN. */
  lemma UuidIsGiven(uuid: string, content: string)
    requires Parse(uuid, content).Ok?
    ensures Parse(uuid, content).value.uuid == uuid && Parse(uuid, content).value.sdnConfig == None
  {
    hide ApplyLines, Lines, DropTrailing;
    LinesKeepUuid(DefaultConfig(uuid), Lines(content));
  }

  // ---- Blanks

  predicate Blank(s: string) { forall i | 0 <= i < |s| :: IsWhitespace(s[i]) }

  lemma {:induction false} TrimStartStrips(blank: string, s: string)
    requires Blank(blank)
    ensures TrimStart(blank + s) == TrimStart(s)
  {
    hide IsWhitespace;
    if blank == [] {
      assert blank + s == s;
    } else {
      assert (blank + s)[0] == blank[0] && (blank + s)[1..] == blank[1..] + s;
      TrimStartStrips(blank[1..], s);
    }
  }

  lemma {:induction false} TrimEndStrips(s: string, blank: string)
    requires Blank(blank)
    ensures TrimEnd(s + blank) == TrimEnd(s)
  {
    hide IsWhitespace;
    if blank == [] {
      assert s + blank == s;
    } else {
      var last := |blank| - 1;
      assert (s + blank)[|s + blank| - 1] == blank[last] && (s + blank)[..|s + blank| - 1] == s + blank[..last];
      TrimEndStrips(s, blank[..last]);
    }
  }

  /** Blanks around a key change nothing; those around a value belong to it. */
  lemma BlanksAroundKey(c: VmConfig, before: string, key: string, after: string, val: string)
    requires Blank(before) && Blank(after) && '=' !in key
    requires key != [] ==> !IsWhitespace(key[0]) && !IsWhitespace(key[|key| - 1])
    ensures ApplyLine(c, before + key + after + ['='] + val) == ApplyLine(c, key + ['='] + val)
    ensures SplitOnce(before + key + after + ['='] + val, '=').Some? &&
            SplitOnce(before + key + after + ['='] + val, '=').value.1 == val
  {
    hide SetField, FieldOf, IsWhitespace, SplitOnce, TrimStart, TrimEnd;
    var padded := before + key + after;
    forall x | x in before || x in after ensures x != '=' { EqualsIsNoBlank(); }
    SplitOnceInverts(padded, '=', val);
    SplitOnceInverts(key, '=', val);
    assert padded == before + (key + after);
    TrimStartStrips(before, key + after);
    if key == [] {
      assert key + after == after && after == after + [];
      TrimStartStrips(after, []);
    } else {
      StartsBare(key + after);
      StartsBare(key);
      TrimEndStrips(key, after);
    }
  }

  lemma EqualsIsNoBlank()
    ensures !IsWhitespace('=')
  {}

  lemma StartsBare(s: string)
    requires s != [] && !IsWhitespace(s[0])
    ensures TrimStart(s) == s
  {
    hide IsWhitespace;
  }

  // ---- Values that are not read

  /** The spellings of the guest systems: any other value stands for "other". */
  lemma GuestSystemsExactly(v: string)
    ensures (GuestOsOf(v) == Windows7 <==> v == "win7") && (GuestOsOf(v) == Windows8 <==> v == "win8")
    ensures (GuestOsOf(v) == Windows10 <==> v == "win10") && (GuestOsOf(v) == Windows11 <==> v == "win11")
    ensures GuestOsOf(v) == WindowsServer2016 <==> v == "winserver2016"
    ensures GuestOsOf(v) == WindowsServer2019 <==> v == "winserver2019"
    ensures GuestOsOf(v) == WindowsServer2022 <==> v == "winserver2022"
    ensures (GuestOsOf(v) == Ubuntu <==> v == "ubuntu") && (GuestOsOf(v) == Debian <==> v == "debian")
    ensures (GuestOsOf(v) == Fedora <==> v == "fedora") && (GuestOsOf(v) == OpenSuse <==> v == "opensuse")
    ensures (GuestOsOf(v) == RedHat <==> v == "redhat") && (GuestOsOf(v) == Arch <==> v == "arch")
    ensures (GuestOsOf(v) == LinuxOther <==> v == "linux") && (GuestOsOf(v) == AnyOs <==> v == "anyos")
    ensures (GuestOsOf(v) == FreeBsd <==> v == "freebsd") && (GuestOsOf(v) == DosFreeDos <==> v == "dos")
  {}

  /** The spellings of the machine's choices: every value that is not one of these stands for the choice that
      has none here. */
  lemma ChoicesExactly(v: string)
    ensures ArchOf(v) == X86 <==> v == "x86"
    ensures (BootOf(v) == DiskFirst <==> v == "disk") && (BootOf(v) == FloppyFirst <==> v == "floppy")
    ensures (BiosOf(v) == CoreVm <==> v == "corevm") && (BiosOf(v) == Uefi <==> v == "uefi")
    ensures RamAllocOf(v) == Preallocate <==> v == "preallocate"
    ensures GpuOf(v) == VirtioGpu <==> v in ["virtiogpu", "virtio-gpu", "virtio_gpu"]
    ensures GpuOf(v) == IntelHD <==> v in ["intelhd", "intel-hd", "intel_hd"]
    ensures NicOf(v) == VirtioNet <==> v in ["virtionet", "virtio-net", "virtio_net"]
    ensures (NetModeOf(v) == Bridge <==> v == "bridge") && (NetModeOf(v) == Disconnected <==> v == "disconnected")
    ensures MacModeOf(v) == Static <==> v == "static"
    ensures (CacheModeOf(v) == WriteThrough <==> v == "writethrough") && (CacheModeOf(v) == Uncached <==> v == "none")
  {}

  function Naughts(k: nat): string { seq(k, _ => '0') }

  lemma {:induction false} DigitsSpell(d: string) returns (k: nat)
    requires d != [] && AllDigits(d)
    ensures d == Naughts(k) + ToDecimal(DecimalValue(d))
  {
    var front, x := d[..|d| - 1], d[|d| - 1] as int - '0' as int;
    assert d == front + [DigitChar(x)];
    if front == [] {
      k := 0;
    } else {
      var v := DecimalValue(front);
      k := DigitsSpell(front);
      if v == 0 {
        assert Naughts(k) + ToDecimal(0) == Naughts(k + 1);
        k := k + 1;
      } else {
        assert ToDecimal(10 * v + x) == ToDecimal(v) + [DigitChar(x)];
      }
    }
  }

  lemma {:induction false} NaughtsDoNotCount(k: nat, t: string)
    requires AllDigits(t)
    ensures AllDigits(Naughts(k) + t) && DecimalValue(Naughts(k) + t) == DecimalValue(t)
  {
    var s := Naughts(k) + t;
    if t != [] {
      NaughtsDoNotCount(k, t[..|t| - 1]);
      assert s[..|s| - 1] == Naughts(k) + t[..|t| - 1];
    } else if k > 0 {
      NaughtsDoNotCount(k - 1, t);
      assert s[..|s| - 1] == Naughts(k - 1) + t;
    }
  }

  /** The text is the number in decimal, with any naughts and one plus sign before it if at all. */
  ghost predicate Spells(s: string, n: nat) {
    exists k: nat :: s == Naughts(k) + ToDecimal(n) || s == ['+'] + (Naughts(k) + ToDecimal(n))
  }

  /** A number is read if and only if it is so spelled and fits. */
  lemma NumbersExactly(s: string, max: nat, n: nat)
    ensures ParseUnsigned(s, max) == Some(n) <==> n <= max && Spells(s, n)
  {
    hide ToDecimal, Naughts, DecimalValue;
    var digits := if s != [] && s[0] == '+' then s[1..] else s;
    if ParseUnsigned(s, max) == Some(n) {
      var k := DigitsSpell(digits);
      assert digits == Naughts(k) + ToDecimal(n);
      assert s == digits || s == ['+'] + digits;
    }
    if n <= max && Spells(s, n) {
      var k: nat :| s == Naughts(k) + ToDecimal(n) || s == ['+'] + (Naughts(k) + ToDecimal(n));
      DecimalValueOfToDecimal(n);
      NaughtsDoNotCount(k, ToDecimal(n));
      var d := Naughts(k) + ToDecimal(n);
      assert d != [] && IsDigit(d[0]);
      assert s == ['+'] + d ==> s[1..] == d;
    }
  }

  /** What a numbered disk line does: nothing without a number, a panic for disk zero or a named disk past the
      capacity of the list, and otherwise the name goes to its place, with empty names before it if it must. */
  lemma NumberedDiskLine(c: VmConfig, number: string, name: string)
    ensures var r := SetField(c, NumberedDisk(number), name);
            match ParseUnsigned(number, 0xFFFF_FFFF_FFFF_FFFF)
            case None => r == Ok(c)
            case Some(n) =>
              if n == 0 then r == Err(IndexUnderflow)
              else if name == "" then r == Ok(c)
              else if n * 24 > 0x7FFF_FFFF_FFFF_FFFF then r == Err(CapacityOverflow)
              else
                r.Ok? && r.value == c.(diskImages := r.value.diskImages) &&
                var was, now := c.diskImages, r.value.diskImages;
                |now| == Max(|was|, n) && now[n - 1] == name &&
                forall i | 0 <= i < |now| && i != n - 1 :: now[i] == if i < |was| then was[i] else ""
  {
    hide ParseUnsigned;
  }

  /** A number that cannot be read, or does not fit 32 bits, leaves a fixed value: 256 MB, one core, 16 MB. */
  lemma UnreadableNumbers(c: VmConfig, v: string)
    requires ParseUnsigned(v, U32_MAX) == None
    ensures SetField(c, Ram, v) == Ok(c.(ramMb := 256))
    ensures SetField(c, CpuCores, v) == Ok(c.(cpuCores := 1))
    ensures SetField(c, VramMb, v) == Ok(c.(vramMb := 16))
    ensures SetField(c, DiskCacheMb, v) == Ok(c.(diskCacheMb := 32))
  {}

  // ---- What is written

  lemma Numerals()
    ensures ToDecimal(0) == "0" && ToDecimal(1) == "1" && ToDecimal(16) == "16" && ToDecimal(256) == "256"
  {
    assert ToDecimal(2) == "2" && ToDecimal(25) == "25";
  }

  /** The file of a new machine, key by key and in order. */
  lemma NewMachineFile(uuid: string)
    ensures Entries(DefaultConfig(uuid)) ==
            [("name", "New VM"), ("guest_os", "other"), ("guest_arch", "x64"), ("ram", "256"), ("cpu_cores", "1"),
             ("disk", ""), ("iso", ""), ("boot", "cd"), ("bios", "seabios"), ("ram_alloc", "ondemand"),
             ("gpu", "stdvga"), ("vram_mb", "16"), ("nic", "e1000"), ("net_enabled", "0"), ("net_mode", "usermode"),
             ("net_host_nic", ""), ("mac_mode", "dynamic"), ("mac_address", ""), ("audio_enabled", "1"),
             ("usb_tablet", "0"), ("diagnostics", "0"), ("disk_cache_mb", "0"), ("disk_cache_mode", "none")]
  {
    hide ToDecimal, HeadEntries, DiskEntries, BootEntries, NetEntries, SwitchEntries;
    NewMachineStart(uuid);
    NewMachineDevices(uuid);
    NewMachineNet(uuid);
    NewMachineSwitches(uuid);
  }

  lemma NewMachineStart(uuid: string)
    ensures HeadEntries(DefaultConfig(uuid)) ==
            [("name", "New VM"), ("guest_os", "other"), ("guest_arch", "x64"), ("ram", "256"), ("cpu_cores", "1")]
    ensures DiskEntries(DefaultConfig(uuid).diskImages) == [("disk", "")]
  {
    hide ToDecimal;
    Numerals();
  }

  lemma NewMachineDevices(uuid: string)
    ensures BootEntries(DefaultConfig(uuid)) ==
            [("iso", ""), ("boot", "cd"), ("bios", "seabios"), ("ram_alloc", "ondemand"),
             ("gpu", "stdvga"), ("vram_mb", "16"), ("nic", "e1000")]
  {
    hide ToDecimal;
    Numerals();
  }

  lemma NewMachineNet(uuid: string)
    ensures NetEntries(DefaultConfig(uuid)) ==
            [("net_enabled", "0"), ("net_mode", "usermode"), ("net_host_nic", ""), ("mac_mode", "dynamic"),
             ("mac_address", "")]
  {}

  lemma NewMachineSwitches(uuid: string)
    ensures SwitchEntries(DefaultConfig(uuid)) ==
            [("audio_enabled", "1"), ("usb_tablet", "0"), ("diagnostics", "0"), ("disk_cache_mb", "0"),
             ("disk_cache_mode", "none")]
  {
    hide ToDecimal;
    Numerals();
  }
}
