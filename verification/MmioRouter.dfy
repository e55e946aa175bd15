// Address decoding of the guest's MMIO exits: the AHCI test that decides which lock an exit takes,
// the list of registered regions, and the two decision chains of the PCI MMIO router.
module MmioRouter {
  import opened Basics

  /** Where an MMIO access ends up. `VgaDispi` and `VgaMemory` are two windows of one adapter,
      `Platform` is the PCI configuration space, the root complex and the interrupt controllers.
      `Outside` is an address no registered region holds, `Unclaimed` one that reaches the PCI
      router but that no BAR claims. */
  datatype Device =
    | E1000 | Ahci | VgaDispi | VgaMemory | IntelGpuRegs | IntelGpuVram
    | VirtioGpu | VirtioNet | VirtioKbd | VirtioTablet | Hpet | Platform
    | Unclaimed | Outside

  /** The devices that register a region of their own. */
  type Mappable = d: Device | d !in {E1000, Ahci, Unclaimed, Outside} witness VgaDispi

  /** A registered MMIO region: the router's catch-all, or a device's own. */
  datatype Region = Router | Mapped(device: Mappable, base: nat, size: nat)

  /** A device together with the offset inside its window. */
  datatype Target = Target(device: Device, offset: int)

  /** The raw 32-bit BAR registers the router reads from PCI configuration space. */
  datatype Bars = Bars(
    e1000Bar0: u32, ahciBar5: u32, vgaBar0: u32, vgaBar2: u32,
    virtioGpuBar0: u32, virtioNetBar0: u32, virtioKbdBar0: u32, virtioTabletBar0: u32)

  /** `raw` with its low bits masked off: the router's masks are the complements of the
      alignments 16, 4 KB, 16 KB, 4 MB and 32 MB. */
  function AlignDown(raw: u32, alignment: nat): nat
    requires alignment > 0
  {
    raw - raw % alignment
  }

  /** Which device pointers are non-null, whether the VGA adapter is on the PCI bus, the registered
      regions in the order of their registration, and the BAR values at the moment of an access. */
  datatype Machine = Machine(
    pciBus: bool, e1000: bool, ahci: bool, svga: bool, vgaOnBus: bool, intelGpu: bool,
    virtioGpu: bool, virtioNet: bool, virtioKbd: bool, virtioTablet: bool, hpet: bool,
    intelVramSize: nat, regions: seq<Region>, bars: Bars)
  {
    function ReadBar(raw: u32, alignment: nat): nat
      requires alignment > 0
    {
      if !pciBus then 0 else AlignDown(raw, alignment)
    }

    function E1000Base(): nat { if !e1000 then 0 else ReadBar(bars.e1000Bar0, 0x10) }
    function AhciBase(): nat { if !ahci then 0 else ReadBar(bars.ahciBar5, 0x10) }
    function VgaBase(): nat {
      if !svga || intelGpu then 0 else ReadBar(bars.vgaBar2, 0x1000)
    }
    /** Where an address without a region is looked up as a last resort. */
    function FallbackBase(): nat {
      if !svga || !vgaOnBus then 0 else ReadBar(bars.vgaBar2, 0x1000)
    }
    function IntelRegsBase(): nat { if !intelGpu then 0 else ReadBar(bars.vgaBar0, 0x40_0000) }
    function IntelVramBase(): nat { if !intelGpu then 0 else ReadBar(bars.vgaBar2, 0x200_0000) }
    function VirtioGpuBase(): nat { if !virtioGpu then 0 else ReadBar(bars.virtioGpuBar0, 0x4000) }
    function VirtioNetBase(): nat { if !virtioNet then 0 else ReadBar(bars.virtioNetBar0, 0x4000) }
    function VirtioKbdBase(): nat { if !virtioKbd then 0 else ReadBar(bars.virtioKbdBar0, 0x4000) }
    function VirtioTabletBase(): nat {
      if !virtioTablet then 0 else ReadBar(bars.virtioTabletBar0, 0x4000)
    }
  }

  const CATCHALL_BASE: nat := 0xF000_0000
  const CATCHALL_SIZE: nat := 0xEC0_0000
  const E1000_WINDOW: nat := 0x2_0000
  const AHCI_WINDOW: nat := 0x1000
  const DISPI_WINDOW: nat := 0x1000
  const INTEL_REGS_WINDOW: nat := 0x40_0000
  const VIRTIO_WINDOW: nat := 0x4000

  predicate InCatchAll(addr: nat) {
    CATCHALL_BASE <= addr < CATCHALL_BASE + CATCHALL_SIZE
  }

  predicate InWindow(addr: nat, base: nat, size: nat) {
    base != 0 && base <= addr < base + size
  }

  /** The test made before the exit is dispatched; it reads BAR5 by itself. */
  predicate IsAhciMmio(m: Machine, addr: nat) {
    if !m.ahci || !m.pciBus then false
    else
      var bar5 := AlignDown(m.bars.ahciBar5, 0x10);
      bar5 != 0 && addr >= bar5 && addr < bar5 + 0x1000
  }

  /** The router's read chain; `addr` is the absolute address. */
  function RouteRead(m: Machine, addr: nat): Target {
    if m.e1000 && InWindow(addr, m.E1000Base(), 0x2_0000) then Target(E1000, addr - m.E1000Base())
    else if InWindow(addr, m.AhciBase(), 0x1000) then Target(Ahci, addr - m.AhciBase())
    else if InWindow(addr, m.VgaBase(), 0x1000) then Target(VgaDispi, addr - m.VgaBase())
    else if m.intelGpu && InWindow(addr, m.IntelRegsBase(), INTEL_REGS_WINDOW) then
      Target(IntelGpuRegs, addr - m.IntelRegsBase())
    else if m.intelGpu && m.IntelVramBase() != 0 && addr >= m.IntelVramBase()
            && addr < m.IntelVramBase() + m.intelVramSize then
      Target(IntelGpuVram, addr - m.IntelVramBase())
    else if m.virtioGpu && InWindow(addr, m.VirtioGpuBase(), 0x4000) then
      Target(VirtioGpu, addr - m.VirtioGpuBase())
    else if m.virtioNet && InWindow(addr, m.VirtioNetBase(), 0x4000) then
      Target(VirtioNet, addr - m.VirtioNetBase())
    else if m.virtioKbd && InWindow(addr, m.VirtioKbdBase(), 0x4000) then
      Target(VirtioKbd, addr - m.VirtioKbdBase())
    else if m.virtioTablet && InWindow(addr, m.VirtioTabletBase(), 0x4000) then
      Target(VirtioTablet, addr - m.VirtioTabletBase())
    else Target(Unclaimed, 0)
  }

  /** The router's write chain, coded separately from the read chain in the router. */
  function RouteWrite(m: Machine, addr: nat): Target {
    if m.e1000 && m.E1000Base() != 0 && addr >= m.E1000Base() && addr < m.E1000Base() + 0x2_0000 then
      Target(E1000, addr - m.E1000Base())
    else if m.AhciBase() != 0 && addr >= m.AhciBase() && addr < m.AhciBase() + 0x1000 then
      Target(Ahci, addr - m.AhciBase())
    else if m.VgaBase() != 0 && addr >= m.VgaBase() && addr < m.VgaBase() + 0x1000 then
      Target(VgaDispi, addr - m.VgaBase())
    else if m.intelGpu && m.IntelRegsBase() != 0 && addr >= m.IntelRegsBase()
            && addr < m.IntelRegsBase() + INTEL_REGS_WINDOW then
      Target(IntelGpuRegs, addr - m.IntelRegsBase())
    else if m.intelGpu && m.IntelVramBase() != 0 && addr >= m.IntelVramBase()
            && addr < m.IntelVramBase() + m.intelVramSize then
      Target(IntelGpuVram, addr - m.IntelVramBase())
    else if m.virtioGpu && m.VirtioGpuBase() != 0 && addr >= m.VirtioGpuBase()
            && addr < m.VirtioGpuBase() + 0x4000 then
      Target(VirtioGpu, addr - m.VirtioGpuBase())
    else if m.virtioNet && m.VirtioNetBase() != 0 && addr >= m.VirtioNetBase()
            && addr < m.VirtioNetBase() + 0x4000 then
      Target(VirtioNet, addr - m.VirtioNetBase())
    else if m.virtioKbd && m.VirtioKbdBase() != 0 && addr >= m.VirtioKbdBase()
            && addr < m.VirtioKbdBase() + 0x4000 then
      Target(VirtioKbd, addr - m.VirtioKbdBase())
    else if m.virtioTablet && m.VirtioTabletBase() != 0 && addr >= m.VirtioTabletBase()
            && addr < m.VirtioTabletBase() + 0x4000 then
      Target(VirtioTablet, addr - m.VirtioTabletBase())
    else Target(Unclaimed, 0)
  }

  predicate InRegion(r: Region, addr: nat) {
    match r
    case Router => InCatchAll(addr)
    case Mapped(_, base, size) => base <= addr < base + size
  }

  /** The first registered region that holds the address. */
  function FindRegion(rs: seq<Region>, addr: nat): (i: nat)
    ensures i <= |rs| && (i < |rs| ==> InRegion(rs[i], addr))
    ensures forall j | 0 <= j < i :: !InRegion(rs[j], addr)
  {
    if rs == [] || InRegion(rs[0], addr) then 0 else 1 + FindRegion(rs[1..], addr)
  }

  function Dispatch(m: Machine, addr: nat, isWrite: bool): Target {
    var i := FindRegion(m.regions, addr);
    if i == |m.regions| then
      if InWindow(addr, m.FallbackBase(), DISPI_WINDOW) then Target(VgaDispi, addr - m.FallbackBase())
      else Target(Outside, 0)
    else
      match m.regions[i]
      case Mapped(device, base, _) => Target(device, addr - base)
      case Router => if isWrite then RouteWrite(m, addr) else RouteRead(m, addr)
  }

  // ---- Reference definition: the first window, in a fixed priority, that holds the address.

  datatype Window = Window(device: Device, base: nat, size: nat)

  /** A window of a present device: its register with the low bits off; base 0 stands for none. */
  function From(present: bool, device: Device, raw: u32, alignment: nat, size: nat): Window
    requires alignment > 0
  {
    Window(device, if present then raw - raw % alignment else 0, size)
  }

  /** The windows by device, register, alignment and size. */
  function Windows(m: Machine): seq<Window> {
    var b, bus := m.bars, m.pciBus;
    [ From(bus && m.e1000, E1000, b.e1000Bar0, 16, 0x2_0000),
      From(bus && m.ahci, Ahci, b.ahciBar5, 16, 0x1000),
      From(bus && m.svga && !m.intelGpu, VgaDispi, b.vgaBar2, 0x1000, 0x1000),
      From(bus && m.intelGpu, IntelGpuRegs, b.vgaBar0, 0x40_0000, 0x40_0000),
      From(bus && m.intelGpu, IntelGpuVram, b.vgaBar2, 0x200_0000, m.intelVramSize),
      From(bus && m.virtioGpu, VirtioGpu, b.virtioGpuBar0, 0x4000, 0x4000),
      From(bus && m.virtioNet, VirtioNet, b.virtioNetBar0, 0x4000, 0x4000),
      From(bus && m.virtioKbd, VirtioKbd, b.virtioKbdBar0, 0x4000, 0x4000),
      From(bus && m.virtioTablet, VirtioTablet, b.virtioTabletBar0, 0x4000, 0x4000) ]
  }

  predicate Holds(w: Window, addr: nat) {
    InWindow(addr, w.base, w.size)
  }

  ghost predicate IsFirstHolder(ws: seq<Window>, addr: nat, t: Target) {
    if forall i | 0 <= i < |ws| :: !Holds(ws[i], addr) then t == Target(Unclaimed, 0)
    else exists i | 0 <= i < |ws| ::
           Holds(ws[i], addr) && (forall j | 0 <= j < i :: !Holds(ws[j], addr))
           && t == Target(ws[i].device, addr - ws[i].base)
  }

  /** Reads and writes of one address reach the same device at the same in-window offset,
      and that device is the first one in priority order whose window holds the address. */
  lemma ReadAndWriteAgree(m: Machine, addr: nat)
    ensures RouteWrite(m, addr) == RouteRead(m, addr)
    ensures IsFirstHolder(Windows(m), addr, RouteRead(m, addr))
  {
    var i := FirstIndex(Windows(m), addr);
    ReadStopsAt(m, addr, i);
    ChainsAgree(m, addr);
  }

  function FirstIndex(ws: seq<Window>, addr: nat): (i: nat)
    ensures i <= |ws| && (i < |ws| ==> Holds(ws[i], addr))
    ensures forall j | 0 <= j < i :: !Holds(ws[j], addr)
  {
    if ws == [] || Holds(ws[0], addr) then 0 else 1 + FirstIndex(ws[1..], addr)
  }

  lemma ChainsAgree(m: Machine, addr: nat)
    ensures RouteWrite(m, addr) == RouteRead(m, addr)
  {
    if m.e1000 && InWindow(addr, m.E1000Base(), 0x2_0000) {
    } else if InWindow(addr, m.AhciBase(), 0x1000) {
    } else if InWindow(addr, m.VgaBase(), 0x1000) {
    } else if m.intelGpu && InWindow(addr, m.IntelRegsBase(), INTEL_REGS_WINDOW) {
    } else if m.intelGpu && InWindow(addr, m.IntelVramBase(), m.intelVramSize) {
    } else if m.virtioGpu && InWindow(addr, m.VirtioGpuBase(), 0x4000) {
    } else if m.virtioNet && InWindow(addr, m.VirtioNetBase(), 0x4000) {
    } else if m.virtioKbd && InWindow(addr, m.VirtioKbdBase(), 0x4000) {
    }
  }

  lemma ReadStopsAt(m: Machine, addr: nat, i: nat)
    requires i <= |Windows(m)| && (i < |Windows(m)| ==> Holds(Windows(m)[i], addr))
    requires forall j | 0 <= j < i :: !Holds(Windows(m)[j], addr)
    ensures RouteRead(m, addr) ==
            if i == |Windows(m)| then Target(Unclaimed, 0)
            else Target(Windows(m)[i].device, addr - Windows(m)[i].base)
  {
    var ws := Windows(m);
    assert forall j | 0 <= j < i :: !InWindow(addr, ws[j].base, ws[j].size);
    assert 0 < i ==> !Holds(ws[0], addr);
    assert 1 < i ==> !Holds(ws[1], addr);
    assert 2 < i ==> !Holds(ws[2], addr);
    assert 3 < i ==> !Holds(ws[3], addr);
    assert 4 < i ==> !Holds(ws[4], addr);
    assert 5 < i ==> !Holds(ws[5], addr);
    assert 6 < i ==> !Holds(ws[6], addr);
    assert 7 < i ==> !Holds(ws[7], addr);
    assert 8 < i ==> !Holds(ws[8], addr);
  }

  /** Where an address goes, by the registered regions and the raw registers alone: to the device of the
      first region that holds it, from the router's region to the first window that does, and without
      a region to the adapter's BAR2 if that is where it lies. */
  lemma DispatchExactly(m: Machine, addr: nat, isWrite: bool)
    ensures var t, rs := Dispatch(m, addr, isWrite), m.regions;
            (forall i | 0 <= i < |rs| && Within(rs[i], addr) && forall j | 0 <= j < i :: !Within(rs[j], addr) ::
               if rs[i].Mapped? then t == Target(rs[i].device, addr - rs[i].base)
               else IsFirstHolder(Windows(m), addr, t)) &&
            ((forall i | 0 <= i < |rs| :: !Within(rs[i], addr)) ==>
               var base := m.bars.vgaBar2 - m.bars.vgaBar2 % 0x1000;
               t == if m.pciBus && m.svga && m.vgaOnBus && base != 0 && base <= addr < base + 0x1000
                    then Target(VgaDispi, addr - base) else Target(Outside, 0))
  {
    hide RouteRead, RouteWrite, IsFirstHolder, Windows;
    ReadAndWriteAgree(m, addr);
    forall r | r in m.regions ensures Within(r, addr) <==> InRegion(r, addr) {
      SameRegion(r, addr);
    }
  }

  predicate Within(r: Region, addr: nat) {
    match r
    case Router => 0xF000_0000 <= addr < 0xFEC0_0000
    case Mapped(_, base, size) => base <= addr < base + size
  }

  lemma SameRegion(r: Region, addr: nat)
    ensures Within(r, addr) <==> InRegion(r, addr)
  {}

  // ---- Agreement of the lock test with the router.

  ghost predicate WindowsDisjoint(aBase: nat, aSize: nat, bBase: nat, bSize: nat) {
    aBase == 0 || bBase == 0 || aBase + aSize <= bBase || bBase + bSize <= aBase
  }

  ghost predicate Overlaps(r: Region, base: nat, size: nat) {
    r.Mapped? && r.size > 0 && r.base < base + size && base < r.base + r.size
  }

  ghost predicate ReachesRouter(m: Machine, addr: nat) {
    var i := FindRegion(m.regions, addr);
    i < |m.regions| && m.regions[i].Router?
  }

  ghost predicate IsFirstRouter(rs: seq<Region>, k: nat) {
    k < |rs| && rs[k].Router? && forall j | 0 <= j < k :: !rs[j].Router?
  }

  /** The window overlaps no region that was registered before the router's. */
  ghost predicate ClearOfEarlier(rs: seq<Region>, base: nat, size: nat) {
    exists k: nat :: IsFirstRouter(rs, k) && forall j | 0 <= j < k :: !Overlaps(rs[j], base, size)
  }

  /** The AHCI window lies in the router's catch-all region and is disjoint from every region
      that was registered before it. */
  ghost predicate AhciWindowRouted(m: Machine) {
    m.AhciBase() == 0 ||
    (CATCHALL_BASE <= m.AhciBase() && m.AhciBase() + AHCI_WINDOW <= CATCHALL_BASE + CATCHALL_SIZE &&
     ClearOfEarlier(m.regions, m.AhciBase(), AHCI_WINDOW))
  }

  /** A window in the catch-all region reaches the router with every address exactly when no region
      before the router's overlaps it. */
  lemma WindowReachesRouter(m: Machine, base: nat, size: nat)
    requires size > 0
    ensures (forall addr: nat | base <= addr < base + size :: ReachesRouter(m, addr)) <==>
            (CATCHALL_BASE <= base && base + size <= CATCHALL_BASE + CATCHALL_SIZE &&
             ClearOfEarlier(m.regions, base, size))
  {
    hide FindRegion, ReachesRouter;
    if forall addr: nat | base <= addr < base + size :: ReachesRouter(m, addr) {
      ReachedMeansClear(m, base, size);
    } else {
      var addr: nat :| base <= addr < base + size && !ReachesRouter(m, addr);
      if k: nat :| IsFirstRouter(m.regions, k) && forall j | 0 <= j < k :: !Overlaps(m.regions[j], base, size) {
        if InCatchAll(addr) {
          ClearMeansReached(m, base, size, k, addr);
        }
      }
    }
  }

  lemma ReachedMeansClear(m: Machine, base: nat, size: nat)
    requires size > 0 && forall addr: nat | base <= addr < base + size :: ReachesRouter(m, addr)
    ensures CATCHALL_BASE <= base && base + size <= CATCHALL_BASE + CATCHALL_SIZE
    ensures ClearOfEarlier(m.regions, base, size)
  {
    var k := FindRegion(m.regions, base);
    assert ReachesRouter(m, base) && ReachesRouter(m, base + size - 1);
    FirstRouterAt(m.regions, base);
    forall j | 0 <= j < k ensures !Overlaps(m.regions[j], base, size) {
      if Overlaps(m.regions[j], base, size) {
        var addr := if m.regions[j].base < base then base else m.regions[j].base;
        assert ReachesRouter(m, addr);
        FirstRouterAt(m.regions, addr);
      }
    }
  }

  lemma ClearMeansReached(m: Machine, base: nat, size: nat, k: nat, addr: nat)
    requires base <= addr < base + size && InCatchAll(addr)
    requires IsFirstRouter(m.regions, k) && forall j | 0 <= j < k :: !Overlaps(m.regions[j], base, size)
    ensures ReachesRouter(m, addr)
  {
    assert InRegion(m.regions[k], addr);
    assert forall j | 0 <= j < k :: !InRegion(m.regions[j], addr);
  }

  lemma FirstRouterAt(rs: seq<Region>, addr: nat)
    requires var i := FindRegion(rs, addr); i < |rs| && rs[i].Router?
    ensures IsFirstRouter(rs, FindRegion(rs, addr))
  {
    var i := FindRegion(rs, addr);
    forall j | 0 <= j < i ensures !rs[j].Router? {
      assert !InRegion(rs[j], addr);
    }
  }

  /** An address that reaches the AHCI controller always passes the lock test. */
  lemma RoutedAhciPassesTest(m: Machine, addr: nat, isWrite: bool)
    requires Dispatch(m, addr, isWrite).device == Ahci
    ensures IsAhciMmio(m, addr)
  {
  }

  /** The converse, exactly: every address that passes the test reaches AHCI if and only if the AHCI
      window lies in the catch-all region, is disjoint from every region registered before it, and
      is disjoint from the E1000's. */
  lemma TestImpliesAhciExactly(m: Machine)
    ensures (forall addr: nat, isWrite: bool ::
               IsAhciMmio(m, addr) ==> Dispatch(m, addr, isWrite).device == Ahci)
       <==> (AhciWindowRouted(m)
             && WindowsDisjoint(m.AhciBase(), AHCI_WINDOW, m.E1000Base(), E1000_WINDOW))
  {
    var a, e := m.AhciBase(), m.E1000Base();
    if a == 0 {
      assert forall addr: nat :: !IsAhciMmio(m, addr);
    } else {
      WindowReachesRouter(m, a, AHCI_WINDOW);
      forall addr: nat, isWrite: bool
        ensures IsAhciMmio(m, addr) <==> a <= addr < a + AHCI_WINDOW
        ensures IsAhciMmio(m, addr) ==>
                  (Dispatch(m, addr, isWrite).device == Ahci <==>
                   ReachesRouter(m, addr) && !InWindow(addr, e, E1000_WINDOW))
      {
        TestedAddressReaches(m, addr, isWrite);
      }
      if !WindowsDisjoint(a, AHCI_WINDOW, e, E1000_WINDOW) {
        var addr := if a < e then e else a;
        assert IsAhciMmio(m, addr) && Dispatch(m, addr, true).device != Ahci;
      }
      if !AhciWindowRouted(m) {
        var addr: nat :| a <= addr < a + AHCI_WINDOW && !ReachesRouter(m, addr);
        assert IsAhciMmio(m, addr) && Dispatch(m, addr, true).device != Ahci;
      }
    }
  }

  lemma TestedAddressReaches(m: Machine, addr: nat, isWrite: bool)
    requires m.AhciBase() != 0
    ensures IsAhciMmio(m, addr) <==> m.AhciBase() <= addr < m.AhciBase() + AHCI_WINDOW
    ensures IsAhciMmio(m, addr) ==>
              (Dispatch(m, addr, isWrite).device == Ahci <==>
               ReachesRouter(m, addr) && !InWindow(addr, m.E1000Base(), E1000_WINDOW))
  {
    ChainsAgree(m, addr);
  }

  // ---- The standard machine

  /** The regions as the standard setup registers them before the AHCI controller: the adapter's
      memory three times over, its DISPI page, configuration space and root complex. */
  function StandardRegions(vram: nat): seq<Region> {
    [Mapped(VgaMemory, 0xA_0000, 0x2_0000),
     Mapped(VgaMemory, 0xE000_0000, vram),
     Mapped(VgaMemory, 0xFD00_0000, Min(vram, 0x100_0000)),
     Mapped(VgaDispi, 0xFEBE_0000, 0x1000),
     Mapped(Platform, 0xB000_0000, 0x1000_0000),
     Mapped(Platform, 0xFED1_C000, 0x4000)]
  }

  /** There the AHCI window is routed exactly when it lies in the catch-all region and avoids the
      adapter's memory at its default BAR, its DISPI page, and a linear framebuffer so large that it
      reaches into the region. */
  lemma StandardWindowRouted(m: Machine, vram: nat, later: seq<Region>)
    requires m.regions == StandardRegions(vram) + [Router] + later && m.AhciBase() != 0
    ensures AhciWindowRouted(m) <==>
            var a, end := m.AhciBase(), m.AhciBase() + AHCI_WINDOW;
            CATCHALL_BASE <= a && end <= CATCHALL_BASE + CATCHALL_SIZE &&
            0xE000_0000 + vram <= a &&
            (vram == 0 || end <= 0xFD00_0000 || 0xFD00_0000 + Min(vram, 0x100_0000) <= a) &&
            (end <= 0xFEBE_0000 || 0xFEBE_1000 <= a)
  {
    var k := |StandardRegions(vram)|;
    assert IsFirstRouter(m.regions, k);
    assert m.regions[0] == Mapped(VgaMemory, 0xA_0000, 0x2_0000);
    assert m.regions[4] == Mapped(Platform, 0xB000_0000, 0x1000_0000);
    assert m.regions[5] == Mapped(Platform, 0xFED1_C000, 0x4000);
    assert m.regions[1] == Mapped(VgaMemory, 0xE000_0000, vram);
    assert m.regions[2] == Mapped(VgaMemory, 0xFD00_0000, Min(vram, 0x100_0000));
    assert m.regions[3] == Mapped(VgaDispi, 0xFEBE_0000, 0x1000);
    assert forall j: nat | IsFirstRouter(m.regions, j) :: j == k;
  }

  /** A guest that moves AHCI's BAR5 onto the DISPI page: the test takes the address for AHCI's, and
      the access goes to the VGA adapter. */
  lemma DispiPageShadowsAhci(m: Machine, vram: nat, later: seq<Region>, isWrite: bool)
    requires m.regions == StandardRegions(vram) + [Router] + later && vram <= 0x1000_0000
    requires m.ahci && m.pciBus && m.bars.ahciBar5 == 0xFEBE_0000
    ensures IsAhciMmio(m, 0xFEBE_0000) && Dispatch(m, 0xFEBE_0000, isWrite) == Target(VgaDispi, 0)
  {
    var i := FindRegion(m.regions, 0xFEBE_0000);
    assert m.regions[3] == Mapped(VgaDispi, 0xFEBE_0000, 0x1000) && i <= 3;
    assert m.regions[0] == Mapped(VgaMemory, 0xA_0000, 0x2_0000);
    assert m.regions[1] == Mapped(VgaMemory, 0xE000_0000, vram);
    assert m.regions[2] == Mapped(VgaMemory, 0xFD00_0000, Min(vram, 0x100_0000));
  }

  /** The first region at the old base moves to the new one; the order stays. The guest does this to
      the PCI configuration space by writing PCIEXBAR. */
  function MoveRegion(rs: seq<Region>, oldBase: nat, newBase: nat): seq<Region> {
    if rs == [] then []
    else if rs[0].Mapped? && rs[0].base == oldBase then [rs[0].(base := newBase)] + rs[1..]
    else [rs[0]] + MoveRegion(rs[1..], oldBase, newBase)
  }

  const MMCONFIG_BASE: nat := 0xB000_0000

  /** Moved to 0xF000_0000, the configuration space hides the router and every device behind it. */
  lemma MovedConfigSpaceHidesAll(m: Machine, vram: nat, later: seq<Region>)
    requires m.regions == MoveRegion(StandardRegions(vram) + [Router] + later, MMCONFIG_BASE, CATCHALL_BASE)
    ensures forall addr: nat | InCatchAll(addr) :: !ReachesRouter(m, addr)
    ensures m.AhciBase() != 0 ==> !AhciWindowRouted(m)
  {
    var rs := StandardRegions(vram) + [Router] + later;
    var moved := Mapped(Platform, CATCHALL_BASE, 0x1000_0000);
    MovesFifth(rs, moved);
    forall addr: nat | InCatchAll(addr) ensures !ReachesRouter(m, addr) {
      assert InRegion(m.regions[4], addr);
      assert FindRegion(m.regions, addr) <= 4;
    }
    WindowReachesRouter(m, m.AhciBase(), AHCI_WINDOW);
    assert InCatchAll(m.AhciBase()) ==> !ReachesRouter(m, m.AhciBase());
  }

  lemma MovesFifth(rs: seq<Region>, moved: Region)
    requires |rs| >= 5 && rs[4].Mapped? && rs[4].base == MMCONFIG_BASE && moved == rs[4].(base := CATCHALL_BASE)
    requires forall i | 0 <= i < 4 :: rs[i].Mapped? && rs[i].base != MMCONFIG_BASE
    ensures MoveRegion(rs, MMCONFIG_BASE, CATCHALL_BASE) == rs[4 := moved]
  {
    var r1, r2, r3, r4 := rs[1..], rs[2..], rs[3..], rs[4..];
    assert r1[1..] == r2 && r2[1..] == r3 && r3[1..] == r4;
    assert MoveRegion(r4, MMCONFIG_BASE, CATCHALL_BASE) == [moved] + r4[1..];
    assert MoveRegion(r3, MMCONFIG_BASE, CATCHALL_BASE) == [rs[3]] + ([moved] + r4[1..]);
    assert MoveRegion(r2, MMCONFIG_BASE, CATCHALL_BASE) == [rs[2]] + ([rs[3]] + ([moved] + r4[1..]));
    assert MoveRegion(r1, MMCONFIG_BASE, CATCHALL_BASE) == [rs[1]] + ([rs[2]] + ([rs[3]] + ([moved] + r4[1..])));
  }
}
