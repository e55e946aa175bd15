// Any number of vCPU and polling threads running the device entry points side by side.
// Each entry point is a small program over four locks; a step runs one action of one thread.
// The AHCI controller defers disk requests: queue under AHCI_LOCK, execute without it,
// complete under it.
module SmpDispatch {
  import opened MmioRouter

  // ---- Programs

  datatype Lock = IoLock | MmioLock | AhciLock | E1000Lock

  /** The order in which nested locks are taken. */
  function Rank(l: Lock): nat {
    match l
    case IoLock => 0
    case MmioLock => 1
    case AhciLock => 2
    case E1000Lock => 3
  }

  datatype Action =
    | Acquire(lock: Lock)
    | Release(lock: Lock)
    | Touch(device: Device)   // a register access that queues no disk request
    | Update(device: Device)  // a change of device state by the host
    | WriteAhci               // Ahci::write, which may queue deferred requests
    | TakePending
    | ExecuteAll
    | CompleteAll

  datatype Program =
    | Done
    | Do(action: Action, next: Program)
    | TryLock(lock: Lock, taken: Program, skipped: Program)
    | IfPending(some: Program, none: Program)

  /** The entry points. Both machines of an MMIO exit are the BARs as read by the lock test
      and by the router; they differ when a guest moves a BAR in between. */
  datatype Operation =
    | MmioExit(tested: Machine, routed: Machine, addr: nat, isWrite: bool)
    | PortIo(m: Machine, port: PortTarget, count: nat)
    | PollIrqs(m: Machine)
    | AhciSection             // corevm_ahci_poll_irq, corevm_ahci_flush_caches
    | AhciNeedsFlush
    | E1000Section            // corevm_e1000_take_tx, corevm_e1000_receive, has_rx_irq
    | NetPoll(m: Machine, rounds: nat)
    | HostCall(m: Machine, call: Call)
    | SetActivityCallbacks(m: Machine)

  /** What a port leads to, of the devices modelled here. A string instruction repeats the access. */
  datatype PortTarget = E1000Port | VgaPort | OtherPort

  /** The calls by which the host side of a running machine reaches a device directly. */
  datatype Call =
    | VirtioGpuProcess | VirtioGpuView | IntelGpuView | VgaView | VirtioNetProcessRx
    | KeyPress | Ps2Key(mapped: bool) | TabletMove | InputProcess

  function Present(present: bool, d: Device): seq<Device> { if present then [d] else [] }

  /** The devices such a call touches, one after the other and without a lock. */
  function TouchedBy(m: Machine, call: Call): seq<Device> {
    match call
    case VirtioGpuProcess => Present(m.virtioGpu, VirtioGpu)
    case VirtioGpuView => Present(m.virtioGpu, VirtioGpu)
    case IntelGpuView => Present(m.intelGpu, IntelGpuVram)
    case VgaView => Present(m.svga, VgaMemory)
    case VirtioNetProcessRx => Present(m.virtioNet, VirtioNet)
    case KeyPress => Present(m.virtioKbd, VirtioKbd)
    case Ps2Key(mapped) => Present(m.virtioKbd && mapped, VirtioKbd)
    case TabletMove => Present(m.virtioTablet, VirtioTablet)
    case InputProcess => Present(m.virtioKbd, VirtioKbd) + Present(m.virtioTablet, VirtioTablet)
  }

  function TouchAll(ds: seq<Device>, k: Program): Program {
    if ds == [] then k else Do(Touch(ds[0]), TouchAll(ds[1..], k))
  }

  function Guarded(l: Lock, d: Device, k: Program): Program {
    Do(Acquire(l), Do(Update(d), Do(Release(l), k)))
  }

  /** `Guarded` when the device is present, nothing otherwise. */
  function If(present: bool, l: Lock, d: Device, k: Program): Program {
    if present then Guarded(l, d, k) else k
  }

  /** What the router does once it has chosen a device, followed by `k`. */
  function Access(d: Device, isWrite: bool, k: Program): Program {
    if d == E1000 then Guarded(E1000Lock, E1000, k)
    else if d == Ahci && isWrite then
      Do(Acquire(AhciLock), Do(WriteAhci, Do(TakePending, Do(Release(AhciLock),
        IfPending(
          Do(ExecuteAll, Do(Acquire(AhciLock), Do(CompleteAll, Do(Release(AhciLock), k)))),
          k)))))
    else Do(Touch(d), k)
  }

  function NetRounds(m: Machine, rounds: nat): Program {
    if rounds == 0 then Done
    else
      var rest := NetRounds(m, rounds - 1);
      if m.virtioNet then Do(Touch(VirtioNet), rest)
      else if m.e1000 then Guarded(E1000Lock, E1000, rest)
      else rest
  }

  /** The accesses of one port instruction, all under IO_LOCK. */
  function PortAccesses(m: Machine, port: PortTarget, count: nat, k: Program): Program {
    if count == 0 then k
    else
      var rest := PortAccesses(m, port, count - 1, k);
      match port
      case E1000Port => If(m.e1000, E1000Lock, E1000, rest)
      case VgaPort => TouchAll(Present(m.svga, VgaDispi), rest)
      case OtherPort => rest
  }

  function ProgramOf(op: Operation): Program {
    match op
    case MmioExit(tested, routed, addr, isWrite) =>
      var d := Dispatch(routed, addr, isWrite).device;
      if IsAhciMmio(tested, addr) then Access(d, isWrite, Done)
      else Do(Acquire(MmioLock), Access(d, isWrite, Do(Release(MmioLock), Done)))
    case PortIo(m, port, count) =>
      Do(Acquire(IoLock), PortAccesses(m, port, count, Do(Release(IoLock), Done)))
    case PollIrqs(m) =>
      var mmioPart :=
        If(m.virtioGpu, MmioLock, VirtioGpu, If(m.virtioNet, MmioLock, VirtioNet,
          If(m.virtioKbd, MmioLock, VirtioKbd, If(m.virtioTablet, MmioLock, VirtioTablet, Done))));
      var afterAhci := If(m.e1000, E1000Lock, E1000, TouchAll(Present(m.hpet, Hpet), mmioPart));
      Do(Acquire(IoLock), Do(Release(IoLock),
        if m.ahci
        then TryLock(AhciLock, Do(Update(Ahci), Do(Release(AhciLock), afterAhci)), afterAhci)
        else afterAhci))
    case AhciSection => Guarded(AhciLock, Ahci, Done)
    case AhciNeedsFlush => TryLock(AhciLock, Do(Update(Ahci), Do(Release(AhciLock), Done)), Done)
    case E1000Section => Guarded(E1000Lock, E1000, Done)
    case NetPoll(m, rounds) => NetRounds(m, rounds)
    case HostCall(m, call) => TouchAll(TouchedBy(m, call), Done)
    case SetActivityCallbacks(m) =>
      var others := If(m.e1000, E1000Lock, E1000, TouchAll(Present(m.virtioNet, VirtioNet), Done));
      if m.ahci then Do(Update(Ahci), others) else others
  }

  // ---- States and steps

  /** A command slot of a port. */
  datatype Slot = Slot(port: nat, index: nat)

  /** `ci` is the set of slots whose PORT_CI bit is set, `deferred` those whose deferred_ci
      bit is set; a queued request is the number under which it was issued. */
  datatype Controller = Controller(ci: set<Slot>, deferred: set<Slot>, queue: seq<nat>)

  datatype Phase = Idle | Queueing | Taken | Executed

  /** `held` and `phase` record what the thread's own actions have done so far. */
  datatype Thread = Thread(held: set<Lock>, phase: Phase, todo: Program, pending: seq<nat>, executed: nat)

  datatype Place = InQueue | With(thread: nat) | Finished

  /** Everything that ever happened to each issued request, indexed by its number. */
  datatype History = History(slots: seq<Slot>, place: seq<Place>, executions: seq<nat>,
                             completions: seq<nat>, resetSeen: bool)

  /** `locked` holds the locks whose AtomicBool is true (or whose mutex is taken). */
  datatype State = State(threads: seq<Thread>, locked: set<Lock>, ahci: Controller, history: History)

  /** What one register write does: an HBA reset, or a port write that sets `issued` CI bits
      and processes some slots, finishing some inline and deferring others. */
  datatype Effect = HbaReset | PortWrite(issued: set<Slot>, finished: set<Slot>, deferred: seq<Slot>)

  datatype Choice = Begin(op: Operation) | Go(effect: Effect)

  ghost predicate Distinct<T>(s: seq<T>) {
    forall i, j | 0 <= i < j < |s| :: s[i] != s[j]
  }

  /** process_commands looks only at slots with the CI bit set and skips deferred ones. */
  ghost predicate Possible(c: Controller, e: Effect) {
    e.PortWrite? ==>
      && Distinct(e.deferred)
      && (forall i | 0 <= i < |e.deferred| ::
            e.deferred[i] in c.ci + e.issued && e.deferred[i] !in c.deferred
            && e.deferred[i] !in e.finished)
      && e.finished <= (c.ci + e.issued) - c.deferred
  }

  ghost predicate Enabled(s: State, t: nat, c: Choice) {
    t < |s.threads| &&
    match c
    case Begin(_) => s.threads[t].todo.Done?
    case Go(e) =>
      match s.threads[t].todo
      case Done => false
      case Do(Acquire(l), _) => l !in s.locked
      case Do(WriteAhci, _) => Possible(s.ahci, e)
      case _ => true
  }

  function SetThread(s: State, t: nat, th: Thread): State
    requires t < |s.threads|
  {
    s.(threads := s.threads[t := th])
  }

  function WriteTo(s: State, e: Effect): State {
    match e
    case HbaReset =>
      s.(ahci := s.ahci.(ci := {}), history := s.history.(resetSeen := true))
    case PortWrite(issued, finished, deferred) =>
      var n := |s.history.slots|;
      var k := |deferred|;
      s.(ahci := Controller(s.ahci.ci + issued - finished,
                            s.ahci.deferred + (set x | x in deferred),
                            s.ahci.queue + seq(k, i => n + i)),
         history := s.history.(slots := s.history.slots + deferred,
                               place := s.history.place + seq(k, _ => InQueue),
                               executions := s.history.executions + seq(k, _ => 0),
                               completions := s.history.completions + seq(k, _ => 0)))
  }

  ghost function Bump(counts: seq<nat>, id: nat): seq<nat> {
    if id < |counts| then counts[id := counts[id] + 1] else counts
  }

  ghost function Move(place: seq<Place>, ids: seq<nat>, p: Place): (r: seq<Place>)
    ensures |r| == |place|
    ensures forall id | 0 <= id < |place| :: r[id] == if id in ids then p else place[id]
  {
    seq(|place|, id requires 0 <= id < |place| => if id in ids then p else place[id])
  }

  ghost function ExecuteOne(s: State, t: nat): State
    requires t < |s.threads| && s.threads[t].executed < |s.threads[t].pending|
  {
    var th := s.threads[t];
    SetThread(s, t, th.(executed := th.executed + 1))
      .(history := s.history.(executions := Bump(s.history.executions, th.pending[th.executed])))
  }

  ghost function CompleteOne(s: State, t: nat): State
    requires t < |s.threads| && s.threads[t].pending != []
  {
    var th := s.threads[t];
    var id := th.pending[0];
    var slot := if id < |s.history.slots| then {s.history.slots[id]} else {};
    SetThread(s, t, th.(pending := th.pending[1..], executed := if th.executed == 0 then 0 else th.executed - 1))
      .(ahci := s.ahci.(ci := s.ahci.ci - slot, deferred := s.ahci.deferred - slot),
        history := s.history.(completions := Bump(s.history.completions, id),
                              place := Move(s.history.place, [id], Finished)))
  }

  ghost function Perform(s: State, t: nat, a: Action, next: Program, e: Effect): State
    requires t < |s.threads|
  {
    var th := s.threads[t];
    var moved := th.(todo := next);
    match a
    case Acquire(l) => SetThread(s, t, moved.(held := th.held + {l})).(locked := s.locked + {l})
    case Release(l) => SetThread(s, t, moved.(held := th.held - {l})).(locked := s.locked - {l})
    case Touch(_) => SetThread(s, t, moved)
    case Update(_) => SetThread(s, t, moved)
    case WriteAhci => SetThread(WriteTo(s, e), t, moved.(phase := Queueing))
    case TakePending =>
      SetThread(s, t, moved.(phase := Taken, pending := s.ahci.queue, executed := 0))
        .(ahci := s.ahci.(queue := []),
          history := s.history.(place := Move(s.history.place, s.ahci.queue, With(t))))
    case ExecuteAll =>
      if th.executed < |th.pending| then ExecuteOne(s, t) else SetThread(s, t, moved.(phase := Executed))
    case CompleteAll =>
      if th.pending != [] then CompleteOne(s, t) else SetThread(s, t, moved.(phase := Idle))
  }

  ghost function Step(s: State, t: nat, c: Choice): State
    requires Enabled(s, t, c)
  {
    var th := s.threads[t];
    match c
    case Begin(op) => SetThread(s, t, th.(todo := ProgramOf(op)))
    case Go(e) =>
      match th.todo
      case Do(a, next) => Perform(s, t, a, next, e)
      case TryLock(l, taken, skipped) =>
        if l in s.locked then SetThread(s, t, th.(todo := skipped))
        else SetThread(s, t, th.(todo := taken, held := th.held + {l})).(locked := s.locked + {l})
      case IfPending(some, none) =>
        if th.pending != [] then SetThread(s, t, th.(todo := some))
        else SetThread(s, t, th.(todo := none, phase := Idle))
      case Done => s
  }

  function Initial(n: nat): State {
    State(seq(n, _ => Thread({}, Idle, Done, [], 0)), {}, Controller({}, {}, []),
          History([], [], [], [], false))
  }

  /** Every state some interleaving of `n` threads can reach, in any number of steps. */
  ghost predicate Reaches(n: nat, steps: seq<(nat, Choice)>, s: State)
    decreases |steps|
  {
    if steps == [] then s == Initial(n)
    else
      var (t, c) := steps[|steps| - 1];
      exists p: State :: Reaches(n, steps[..|steps| - 1], p) && Enabled(p, t, c) && s == Step(p, t, c)
  }
}
