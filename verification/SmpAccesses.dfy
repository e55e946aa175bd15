// Which devices every entry point reaches, how often and under which locks, whichever way its
// branches go.
module SmpAccesses {
  import opened MmioRouter
  import opened SmpDispatch

  // ---- What a program does along one path

  /** The actions of a program when its branches go as `choices` say: whether a lock that is tried is
      free, whether requests are pending. */
  function Path(p: Program, choices: seq<bool>): seq<Action>
    decreases p
  {
    match p
    case Done => []
    case Do(a, next) => [a] + Path(next, choices)
    case TryLock(l, taken, skipped) =>
      if choices != [] && choices[0] then [Acquire(l)] + Path(taken, choices[1..])
      else Path(skipped, Rest(choices))
    case IfPending(some, none) =>
      if choices != [] && choices[0] then Path(some, choices[1..]) else Path(none, Rest(choices))
  }

  function Rest(choices: seq<bool>): seq<bool> { if choices == [] then [] else choices[1..] }

  /** What can be seen of a path: locks as they are taken, and accesses with the locks held. Reading and
      writing registers of the devices that queue nothing is one kind of access, a change of a device's
      state by the host another. */
  datatype Event =
    | Takes(lock: Lock)
    | Reaches(device: Device, held: set<Lock>)
    | Changes(device: Device, held: set<Lock>)
    | Issues(held: set<Lock>)
    | Collects(held: set<Lock>)
    | Executes(held: set<Lock>)
    | Completes(held: set<Lock>)

  function EventsOf(a: Action, held: set<Lock>): seq<Event> {
    match a
    case Acquire(l) => [Takes(l)]
    case Release(l) => []
    case Touch(d) => [Reaches(d, held)]
    case Update(d) => [Changes(d, held)]
    case WriteAhci => [Issues(held)]
    case TakePending => [Collects(held)]
    case ExecuteAll => [Executes(held)]
    case CompleteAll => [Completes(held)]
  }

  function HeldAfter(a: Action, held: set<Lock>): set<Lock> {
    match a
    case Acquire(l) => held + {l}
    case Release(l) => held - {l}
    case _ => held
  }

  function Events(actions: seq<Action>, held: set<Lock>): seq<Event> {
    if actions == [] then []
    else EventsOf(actions[0], held) + Events(actions[1..], HeldAfter(actions[0], held))
  }

  function Seen(p: Program, choices: seq<bool>, held: set<Lock>): seq<Event> { Events(Path(p, choices), held) }

  lemma SeenDo(a: Action, next: Program, choices: seq<bool>, held: set<Lock>)
    ensures Seen(Do(a, next), choices, held) == EventsOf(a, held) + Seen(next, choices, HeldAfter(a, held))
  {
    assert ([a] + Path(next, choices))[1..] == Path(next, choices);
  }

  lemma SeenGuarded(l: Lock, d: Device, k: Program, choices: seq<bool>, held: set<Lock>)
    requires l !in held
    ensures Seen(Guarded(l, d, k), choices, held) == [Takes(l), Changes(d, held + {l})] + Seen(k, choices, held)
  {
    hide Seen;
    var third := Do(Release(l), k);
    SeenDo(Acquire(l), Do(Update(d), third), choices, held);
    SeenDo(Update(d), third, choices, held + {l});
    SeenDo(Release(l), k, choices, held + {l});
    assert held + {l} - {l} == held;
    Prepend([Takes(l)], [Changes(d, held + {l})], Seen(k, choices, held));
  }

  lemma Prepend(a: seq<Event>, b: seq<Event>, c: seq<Event>)
    ensures a + (b + c) == a + b + c && [] + c == c
  {}

  lemma SeenPending(some: Program, none: Program, choices: seq<bool>, held: set<Lock>)
    ensures Seen(IfPending(some, none), choices, held) ==
            Seen(if choices != [] && choices[0] then some else none, Rest(choices), held)
  {}

  // ---- MMIO exits

  /** What one exit must do about the device it is for. */
  function AccessEvents(d: Device, isWrite: bool, pending: bool, held: set<Lock>): seq<Event> {
    if d == E1000 then [Takes(E1000Lock), Changes(E1000, held + {E1000Lock})]
    else if d == Ahci && isWrite then
      [Takes(AhciLock), Issues(held + {AhciLock}), Collects(held + {AhciLock})] +
      (if pending then [Executes(held), Takes(AhciLock), Completes(held + {AhciLock})] else [])
    else [Reaches(d, held)]
  }

  lemma SeenAccess(d: Device, isWrite: bool, k: Program, choices: seq<bool>, held: set<Lock>)
    requires held <= {MmioLock}
    ensures var branches := d == Ahci && isWrite;
            var pending := choices != [] && choices[0];
            Seen(Access(d, isWrite, k), choices, held) ==
            AccessEvents(d, isWrite, pending, held) + Seen(k, if branches then Rest(choices) else choices, held)
  {
    hide Seen;
    if d == E1000 {
      SeenGuarded(E1000Lock, E1000, k, choices, held);
    } else if d == Ahci && isWrite {
      SeenAhciWrite(k, choices, held);
    } else {
      SeenDo(Touch(d), k, choices, held);
    }
  }

  lemma SeenAhciWrite(k: Program, choices: seq<bool>, held: set<Lock>)
    requires held <= {MmioLock}
    ensures Seen(Access(Ahci, true, k), choices, held) ==
            AccessEvents(Ahci, true, choices != [] && choices[0], held) + Seen(k, Rest(choices), held)
  {
    hide Seen;
    var locked, rest := held + {AhciLock}, Rest(choices);
    assert locked - {AhciLock} == held;
    var some := Do(ExecuteAll, Do(Acquire(AhciLock), Do(CompleteAll, Do(Release(AhciLock), k))));
    SeenCompletion(k, rest, held);
    var w3 := Do(Release(AhciLock), IfPending(some, k));
    var w2 := Do(TakePending, w3);
    SeenDo(Acquire(AhciLock), Do(WriteAhci, w2), choices, held);
    SeenDo(WriteAhci, w2, choices, locked);
    SeenDo(TakePending, w3, choices, locked);
    SeenDo(Release(AhciLock), IfPending(some, k), choices, locked);
    SeenPending(some, k, choices, held);
    var tail := Seen(IfPending(some, k), choices, held);
    assert [Takes(AhciLock)] + ([Issues(locked)] + ([Collects(locked)] + ([] + tail))) ==
           [Takes(AhciLock), Issues(locked), Collects(locked)] + tail;
  }

  lemma SeenCompletion(k: Program, choices: seq<bool>, held: set<Lock>)
    requires held <= {MmioLock}
    ensures var locked := held + {AhciLock};
            Seen(Do(ExecuteAll, Do(Acquire(AhciLock), Do(CompleteAll, Do(Release(AhciLock), k)))), choices, held) ==
            [Executes(held), Takes(AhciLock), Completes(locked)] + Seen(k, choices, held)
  {
    hide Seen;
    var locked := held + {AhciLock};
    assert locked - {AhciLock} == held;
    var c3 := Do(Release(AhciLock), k);
    var c2 := Do(CompleteAll, c3);
    SeenDo(ExecuteAll, Do(Acquire(AhciLock), c2), choices, held);
    SeenDo(Acquire(AhciLock), c2, choices, held);
    SeenDo(CompleteAll, c3, choices, locked);
    SeenDo(Release(AhciLock), k, choices, locked);
    var tail := Seen(k, choices, held);
    assert [Executes(held)] + ([Takes(AhciLock)] + ([Completes(locked)] + ([] + tail))) ==
           [Executes(held), Takes(AhciLock), Completes(locked)] + tail;
  }

  /** An MMIO exit makes exactly one access, to the device the address is dispatched to: under the
      card's mutex for the E1000, as the locked, unlocked and locked parts of a deferred write for a
      write to AHCI; and it takes MMIO_LOCK for the whole of it unless the lock test says AHCI. */
  lemma ExitReaches(tested: Machine, routed: Machine, addr: nat, isWrite: bool, choices: seq<bool>)
    ensures var d := Dispatch(routed, addr, isWrite).device;
            var pending := choices != [] && choices[0];
            Seen(ProgramOf(MmioExit(tested, routed, addr, isWrite)), choices, {}) ==
            if IsAhciMmio(tested, addr) then AccessEvents(d, isWrite, pending, {})
            else [Takes(MmioLock)] + AccessEvents(d, isWrite, pending, {MmioLock})
  {
    hide Dispatch, IsAhciMmio, Access, AccessEvents, Seen;
    var d := Dispatch(routed, addr, isWrite).device;
    var last := Do(Release(MmioLock), Done);
    var rest := if d == Ahci && isWrite then Rest(choices) else choices;
    SeenAccess(d, isWrite, Done, choices, {});
    SeenAccess(d, isWrite, last, choices, {MmioLock});
    SeenDo(Acquire(MmioLock), Access(d, isWrite, last), choices, {});
    SeenDo(Release(MmioLock), Done, rest, {MmioLock});
    SeenDone(rest);
    assert {} + {MmioLock} == {MmioLock} && {MmioLock} - {MmioLock} == {};
    Nothing(AccessEvents(d, isWrite, choices != [] && choices[0], {}));
    Nothing(AccessEvents(d, isWrite, choices != [] && choices[0], {MmioLock}));
  }

  lemma SeenDone(choices: seq<bool>)
    ensures forall held :: Seen(Done, choices, held) == []
  {}

  lemma Nothing(a: seq<Event>)
    ensures a + [] == a && [] + a == a
  {}

  // ---- The other entry points

  /** One access under a lock, if the device is there. */
  function Once(present: bool, l: Lock, d: Device, held: set<Lock>): seq<Event> {
    if present then [Takes(l), Changes(d, held + {l})] else []
  }

  /** One access without a lock of its own, if the device is there. */
  function Bare(present: bool, d: Device, held: set<Lock>): seq<Event> {
    if present then [Reaches(d, held)] else []
  }

  function Repeat(n: nat, es: seq<Event>): seq<Event> { if n == 0 then [] else es + Repeat(n - 1, es) }

  lemma SeenIf(present: bool, l: Lock, d: Device, k: Program, choices: seq<bool>, held: set<Lock>)
    requires l !in held
    ensures Seen(If(present, l, d, k), choices, held) == Once(present, l, d, held) + Seen(k, choices, held)
  {
    hide Seen;
    if present {
      SeenGuarded(l, d, k, choices, held);
    } else {
      Nothing(Seen(k, choices, held));
    }
  }

  lemma SeenTouch(present: bool, d: Device, k: Program, choices: seq<bool>, held: set<Lock>)
    ensures Seen(TouchAll(Present(present, d), k), choices, held) == Bare(present, d, held) + Seen(k, choices, held)
  {
    hide Seen;
    if present {
      assert [d][1..] == [] && TouchAll([], k) == k;
      SeenDo(Touch(d), k, choices, held);
    } else {
      Nothing(Seen(k, choices, held));
    }
  }

  /** A port instruction holds IO_LOCK and reaches its device once per repetition. */
  lemma PortReaches(m: Machine, port: PortTarget, count: nat, choices: seq<bool>)
    ensures Seen(ProgramOf(PortIo(m, port, count)), choices, {}) ==
            [Takes(IoLock)] +
            Repeat(
              count,
              match port
              case E1000Port => Once(m.e1000, E1000Lock, E1000, {IoLock})
              case VgaPort => Bare(m.svga, VgaDispi, {IoLock})
              case OtherPort => [])
  {
    hide Seen, PortAccesses, Once, Bare;
    var last := Do(Release(IoLock), Done);
    SeenDo(Acquire(IoLock), PortAccesses(m, port, count, last), choices, {});
    assert {} + {IoLock} == {IoLock};
    PortRepeats(m, port, count, last, choices);
    SeenDo(Release(IoLock), Done, choices, {IoLock});
    SeenDone(choices);
    var each := match port
                case E1000Port => Once(m.e1000, E1000Lock, E1000, {IoLock})
                case VgaPort => Bare(m.svga, VgaDispi, {IoLock})
                case OtherPort => [];
    assert Repeat(count, each) + ([] + []) == Repeat(count, each);
  }

  lemma {:induction false} PortRepeats(m: Machine, port: PortTarget, count: nat, k: Program, choices: seq<bool>)
    ensures Seen(PortAccesses(m, port, count, k), choices, {IoLock}) ==
            Repeat(
              count,
              match port
              case E1000Port => Once(m.e1000, E1000Lock, E1000, {IoLock})
              case VgaPort => Bare(m.svga, VgaDispi, {IoLock})
              case OtherPort => []) + Seen(k, choices, {IoLock})
  {
    hide Seen, Once, Bare;
    if count == 0 {
      Nothing(Seen(k, choices, {IoLock}));
    } else {
      PortRepeats(m, port, count - 1, k, choices);
      var rest := PortAccesses(m, port, count - 1, k);
      SeenIf(m.e1000, E1000Lock, E1000, rest, choices, {IoLock});
      SeenTouch(m.svga, VgaDispi, rest, choices, {IoLock});
      var each := match port
                  case E1000Port => Once(m.e1000, E1000Lock, E1000, {IoLock})
                  case VgaPort => Bare(m.svga, VgaDispi, {IoLock})
                  case OtherPort => [];
      Prepend(each, Repeat(count - 1, each), Seen(k, choices, {IoLock}));
      Nothing(Seen(rest, choices, {IoLock}));
    }
  }

  /** The IRQ poll takes IO_LOCK, looks at AHCI if its lock is free, and then at the E1000, the HPET and the
      VirtIO devices that are there, once each and in this order. */
  lemma PollReaches(m: Machine, choices: seq<bool>)
    ensures var free := choices != [] && choices[0];
            Seen(ProgramOf(PollIrqs(m)), choices, {}) ==
            [Takes(IoLock)] + Once(m.ahci && free, AhciLock, Ahci, {}) +
            (Once(m.e1000, E1000Lock, E1000, {}) + (Bare(m.hpet, Hpet, {}) +
            (Once(m.virtioGpu, MmioLock, VirtioGpu, {}) + (Once(m.virtioNet, MmioLock, VirtioNet, {}) +
            (Once(m.virtioKbd, MmioLock, VirtioKbd, {}) + Once(m.virtioTablet, MmioLock, VirtioTablet, {}))))))
  {
    hide Seen, If, Once, Bare, TouchAll;
    var rest := if m.ahci then Rest(choices) else choices;
    var p4 := If(m.virtioTablet, MmioLock, VirtioTablet, Done);
    var p3 := If(m.virtioKbd, MmioLock, VirtioKbd, p4);
    var p2 := If(m.virtioNet, MmioLock, VirtioNet, p3);
    var p1 := If(m.virtioGpu, MmioLock, VirtioGpu, p2);
    var pt := TouchAll(Present(m.hpet, Hpet), p1);
    var p0 := If(m.e1000, E1000Lock, E1000, pt);
    SeenIf(m.virtioTablet, MmioLock, VirtioTablet, Done, rest, {});
    SeenIf(m.virtioKbd, MmioLock, VirtioKbd, p4, rest, {});
    SeenIf(m.virtioNet, MmioLock, VirtioNet, p3, rest, {});
    SeenIf(m.virtioGpu, MmioLock, VirtioGpu, p2, rest, {});
    SeenTouch(m.hpet, Hpet, p1, rest, {});
    SeenIf(m.e1000, E1000Lock, E1000, pt, rest, {});
    SeenDone(rest);
    Nothing(Once(m.virtioTablet, MmioLock, VirtioTablet, {}));
    SeenPoll(m.ahci, p0, choices);
  }

  lemma SeenPoll(ahci: bool, k: Program, choices: seq<bool>)
    ensures var free := choices != [] && choices[0];
            Seen(
              Do(Acquire(IoLock), Do(Release(IoLock),
                if ahci then TryLock(AhciLock, Do(Update(Ahci), Do(Release(AhciLock), k)), k) else k)), choices, {}) ==
            [Takes(IoLock)] + Once(ahci && free, AhciLock, Ahci, {}) +
            Seen(k, if ahci then Rest(choices) else choices, {})
  {
    hide Seen;
    var tail := if ahci then TryLock(AhciLock, Do(Update(Ahci), Do(Release(AhciLock), k)), k) else k;
    SeenDo(Acquire(IoLock), Do(Release(IoLock), tail), choices, {});
    SeenDo(Release(IoLock), tail, choices, {} + {IoLock});
    assert {} + {IoLock} - {IoLock} == {};
    SeenTry(k, choices);
    Nothing(Seen(tail, choices, {}));
    Prepend([Takes(IoLock)], Once(ahci && choices != [] && choices[0], AhciLock, Ahci, {}),
            Seen(k, if ahci then Rest(choices) else choices, {}));
  }

  lemma SeenTry(k: Program, choices: seq<bool>)
    ensures Seen(TryLock(AhciLock, Do(Update(Ahci), Do(Release(AhciLock), k)), k), choices, {}) ==
            Once(choices != [] && choices[0], AhciLock, Ahci, {}) + Seen(k, Rest(choices), {})
  {
    var taken := Do(Update(Ahci), Do(Release(AhciLock), k));
    if choices != [] && choices[0] {
      SeenGuarded(AhciLock, Ahci, k, choices[1..], {});
      assert Path(Guarded(AhciLock, Ahci, k), choices[1..]) == [Acquire(AhciLock)] + Path(taken, choices[1..]);
    } else {
      Nothing(Seen(k, Rest(choices), {}));
    }
  }

  /** The sections of one device reach it once, under its lock; the cache check only if the lock is free. */
  lemma SectionsReach(choices: seq<bool>)
    ensures Seen(ProgramOf(AhciSection), choices, {}) == [Takes(AhciLock), Changes(Ahci, {AhciLock})]
    ensures Seen(ProgramOf(E1000Section), choices, {}) == [Takes(E1000Lock), Changes(E1000, {E1000Lock})]
    ensures Seen(ProgramOf(AhciNeedsFlush), choices, {}) ==
            if choices != [] && choices[0] then [Takes(AhciLock), Changes(Ahci, {AhciLock})] else []
  {
    hide Seen;
    SeenGuarded(AhciLock, Ahci, Done, choices, {});
    SeenGuarded(E1000Lock, E1000, Done, choices, {});
    SeenTry(Done, choices);
    SeenDone(choices);
    SeenDone(Rest(choices));
    assert {} + {AhciLock} == {AhciLock} && {} + {E1000Lock} == {E1000Lock};
  }

  /** A network poll reaches one card, the VirtIO card if it is there, once per round. */
  lemma {:induction false} NetPollReaches(m: Machine, rounds: nat, choices: seq<bool>)
    ensures Seen(ProgramOf(NetPoll(m, rounds)), choices, {}) ==
            Repeat(
              rounds, if m.virtioNet then [Reaches(VirtioNet, {})] else Once(m.e1000, E1000Lock, E1000, {}))
  {
    hide Seen;
    if rounds == 0 {
      SeenDone(choices);
    } else {
      NetPollReaches(m, rounds - 1, choices);
      var rest := NetRounds(m, rounds - 1);
      SeenDo(Touch(VirtioNet), rest, choices, {});
      SeenIf(m.e1000, E1000Lock, E1000, rest, choices, {});
    }
  }

  /** A call of the host reaches the devices that it is about and that are there, without a lock. */
  lemma HostCallReaches(m: Machine, call: Call, choices: seq<bool>)
    ensures Seen(ProgramOf(HostCall(m, call)), choices, {}) ==
            match call
            case VirtioGpuProcess => Bare(m.virtioGpu, VirtioGpu, {})
            case VirtioGpuView => Bare(m.virtioGpu, VirtioGpu, {})
            case IntelGpuView => Bare(m.intelGpu, IntelGpuVram, {})
            case VgaView => Bare(m.svga, VgaMemory, {})
            case VirtioNetProcessRx => Bare(m.virtioNet, VirtioNet, {})
            case KeyPress => Bare(m.virtioKbd, VirtioKbd, {})
            case Ps2Key(mapped) => Bare(m.virtioKbd && mapped, VirtioKbd, {})
            case TabletMove => Bare(m.virtioTablet, VirtioTablet, {})
            case InputProcess => Bare(m.virtioKbd, VirtioKbd, {}) + Bare(m.virtioTablet, VirtioTablet, {})
  {
    hide Seen;
    SeenDone(choices);
    if call.InputProcess? {
      var tablet := Present(m.virtioTablet, VirtioTablet);
      SeenTouch(m.virtioTablet, VirtioTablet, Done, choices, {});
      SeenTouch(m.virtioKbd, VirtioKbd, TouchAll(tablet, Done), choices, {});
      if m.virtioKbd {
        assert ([VirtioKbd] + tablet)[1..] == tablet && [VirtioKbd][1..] == [];
      } else {
        assert [] + tablet == tablet;
      }
    } else {
      SeenTouch(m.virtioGpu, VirtioGpu, Done, choices, {});
      SeenTouch(m.intelGpu, IntelGpuVram, Done, choices, {});
      SeenTouch(m.svga, VgaMemory, Done, choices, {});
      SeenTouch(m.virtioNet, VirtioNet, Done, choices, {});
      SeenTouch(m.virtioKbd, VirtioKbd, Done, choices, {});
      SeenTouch(m.virtioKbd && (call.Ps2Key? && call.mapped), VirtioKbd, Done, choices, {});
      SeenTouch(m.virtioTablet, VirtioTablet, Done, choices, {});
    }
  }

  /** Setting the callbacks stores into AHCI and VirtIO-Net without a lock and into the E1000 under its
      mutex. */
  lemma CallbacksReach(m: Machine, choices: seq<bool>)
    ensures Seen(ProgramOf(SetActivityCallbacks(m)), choices, {}) ==
            (if m.ahci then [Changes(Ahci, {})] else []) +
            (Once(m.e1000, E1000Lock, E1000, {}) + Bare(m.virtioNet, VirtioNet, {}))
  {
    hide Seen, If, TouchAll, Once, Bare;
    var last := TouchAll(Present(m.virtioNet, VirtioNet), Done);
    var others := If(m.e1000, E1000Lock, E1000, last);
    SeenTouch(m.virtioNet, VirtioNet, Done, choices, {});
    SeenIf(m.e1000, E1000Lock, E1000, last, choices, {});
    SeenDone(choices);
    Nothing(Bare(m.virtioNet, VirtioNet, {}));
    SeenDo(Update(Ahci), others, choices, {});
    Nothing(Seen(others, choices, {}));
  }
}
