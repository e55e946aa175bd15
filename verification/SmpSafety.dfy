// What every interleaving of the device entry points keeps: mutual exclusion, freedom from
// deadlock, and exactly-once execution and completion of every deferred disk request.
module SmpSafety {
  import opened Wrappers
  import opened MmioRouter
  import opened SmpDispatch

  // ---- The discipline every entry point follows

  /** Locks are taken in rank order and released only by their holder; a request is queued,
      taken, executed and completed in that order, each under the right lock. */
  ghost predicate Disciplined(held: set<Lock>, phase: Phase, p: Program)
    decreases p
  {
    match p
    case Done => held == {} && phase == Idle
    case Do(Acquire(l), next) =>
      (forall h | h in held :: Rank(h) < Rank(l)) && Disciplined(held + {l}, phase, next)
    case Do(Release(l), next) =>
      l in held && (l == AhciLock ==> phase != Queueing) && Disciplined(held - {l}, phase, next)
    case Do(Touch(_), next) => Disciplined(held, phase, next)
    case Do(Update(_), next) => Disciplined(held, phase, next)
    case Do(WriteAhci, next) =>
      AhciLock in held && phase in {Idle, Queueing} && Disciplined(held, Queueing, next)
    case Do(TakePending, next) =>
      AhciLock in held && phase == Queueing && Disciplined(held, Taken, next)
    case Do(ExecuteAll, next) =>
      AhciLock !in held && phase == Taken && Disciplined(held, Executed, next)
    case Do(CompleteAll, next) =>
      AhciLock in held && phase == Executed && Disciplined(held, Idle, next)
    case TryLock(l, taken, skipped) =>
      l !in held && Disciplined(held + {l}, phase, taken) && Disciplined(held, phase, skipped)
    case IfPending(some, none) =>
      phase == Taken && Disciplined(held, Taken, some) && Disciplined(held, Idle, none)
  }

  lemma GuardedDisciplined(held: set<Lock>, l: Lock, d: Device, k: Program)
    requires forall h | h in held :: Rank(h) < Rank(l)
    requires Disciplined(held, Idle, k)
    ensures Disciplined(held, Idle, Guarded(l, d, k))
  {
    assert held + {l} - {l} == held;
  }

  lemma AccessDisciplined(held: set<Lock>, d: Device, isWrite: bool, k: Program)
    requires held <= {MmioLock} && Disciplined(held, Idle, k)
    ensures Disciplined(held, Idle, Access(d, isWrite, k))
  {
    var locked := held + {AhciLock};
    assert locked - {AhciLock} == held;
    var complete := Do(CompleteAll, Do(Release(AhciLock), k));
    assert Disciplined(locked, Executed, complete);
    var some := Do(ExecuteAll, Do(Acquire(AhciLock), complete));
    assert Disciplined(held, Taken, some);
    var release := Do(Release(AhciLock), IfPending(some, k));
    assert Disciplined(locked, Taken, release);
    assert Disciplined(locked, Idle, Do(WriteAhci, Do(TakePending, release)));
    if d == E1000 { GuardedDisciplined(held, E1000Lock, d, k); }
  }

  /** Every entry point is disciplined, even if a BAR moves between the lock test and routing. */
  lemma {:induction false} OperationsDisciplined(op: Operation)
    ensures Disciplined({}, Idle, ProgramOf(op))
  {
    match op
    case MmioExit(tested, routed, addr, isWrite) =>
      var d := Dispatch(routed, addr, isWrite).device;
      AccessDisciplined({}, d, isWrite, Done);
      assert {MmioLock} - {MmioLock} == {} && {} + {MmioLock} == {MmioLock};
      AccessDisciplined({MmioLock}, d, isWrite, Do(Release(MmioLock), Done));
    case PortIo(m, port, count) =>
      assert {IoLock} - {IoLock} == {} && {} + {IoLock} == {IoLock};
      PortDisciplined(m, port, count, Do(Release(IoLock), Done));
    case PollIrqs(m) => PollIrqsDisciplined(m);
    case AhciSection => GuardedDisciplined({}, AhciLock, Ahci, Done);
    case AhciNeedsFlush =>
      assert {} + {AhciLock} - {AhciLock} == {};
      assert Disciplined({} + {AhciLock}, Idle, Do(Update(Ahci), Do(Release(AhciLock), Done)));
    case E1000Section => GuardedDisciplined({}, E1000Lock, E1000, Done);
    case NetPoll(m, rounds) => NetRoundsDisciplined(m, rounds);
    case HostCall(m, call) => TouchesDisciplined({}, TouchedBy(m, call), Done);
    case SetActivityCallbacks(m) =>
      var p1 := TouchAll(Present(m.virtioNet, VirtioNet), Done);
      var p0 := If(m.e1000, E1000Lock, E1000, p1);
      TouchesDisciplined({}, Present(m.virtioNet, VirtioNet), Done);
      GuardedDisciplined({}, E1000Lock, E1000, p1);
      assert Disciplined({}, Idle, Do(Update(Ahci), p0));
  }

  lemma PollIrqsDisciplined(m: Machine)
    ensures Disciplined({}, Idle, ProgramOf(PollIrqs(m)))
  {
    hide Disciplined;
    DoneDisciplined();
    var p4 := If(m.virtioTablet, MmioLock, VirtioTablet, Done);
    var p3 := If(m.virtioKbd, MmioLock, VirtioKbd, p4);
    var p2 := If(m.virtioNet, MmioLock, VirtioNet, p3);
    var p1 := If(m.virtioGpu, MmioLock, VirtioGpu, p2);
    var pt := TouchAll(Present(m.hpet, Hpet), p1);
    var p0 := If(m.e1000, E1000Lock, E1000, pt);
    GuardedDisciplined({}, MmioLock, VirtioTablet, Done);
    GuardedDisciplined({}, MmioLock, VirtioKbd, p4);
    GuardedDisciplined({}, MmioLock, VirtioNet, p3);
    GuardedDisciplined({}, MmioLock, VirtioGpu, p2);
    TouchesDisciplined({}, Present(m.hpet, Hpet), p1);
    GuardedDisciplined({}, E1000Lock, E1000, pt);
    PollDisciplined(m.ahci, p0);
  }

  lemma DoneDisciplined()
    ensures Disciplined({}, Idle, Done)
  {}

  lemma {:induction false} TouchesDisciplined(held: set<Lock>, ds: seq<Device>, k: Program)
    requires Disciplined(held, Idle, k)
    ensures Disciplined(held, Idle, TouchAll(ds, k))
  {
    if ds != [] { TouchesDisciplined(held, ds[1..], k); }
  }

  lemma {:induction false} PortDisciplined(m: Machine, port: PortTarget, count: nat, k: Program)
    requires Disciplined({IoLock}, Idle, k)
    ensures Disciplined({IoLock}, Idle, PortAccesses(m, port, count, k))
  {
    if count > 0 {
      PortDisciplined(m, port, count - 1, k);
      var rest := PortAccesses(m, port, count - 1, k);
      GuardedDisciplined({IoLock}, E1000Lock, E1000, rest);
      TouchesDisciplined({IoLock}, Present(m.svga, VgaDispi), rest);
    }
  }

  lemma PollDisciplined(ahci: bool, k: Program)
    requires Disciplined({}, Idle, k)
    ensures Disciplined({}, Idle,
              Do(Acquire(IoLock), Do(Release(IoLock),
                if ahci then TryLock(AhciLock, Do(Update(Ahci), Do(Release(AhciLock), k)), k) else k)))
  {
    assert {} + {AhciLock} - {AhciLock} == {} && {} + {IoLock} - {IoLock} == {};
    var inner := Do(Release(AhciLock), k);
    assert Disciplined({} + {AhciLock}, Idle, Do(Update(Ahci), inner));
    var tail := if ahci then TryLock(AhciLock, Do(Update(Ahci), inner), k) else k;
    assert Disciplined({}, Idle, tail);
    assert Disciplined({} + {IoLock}, Idle, Do(Release(IoLock), tail));
  }

  lemma {:induction false} NetRoundsDisciplined(m: Machine, rounds: nat)
    ensures Disciplined({}, Idle, NetRounds(m, rounds))
  {
    if rounds > 0 {
      NetRoundsDisciplined(m, rounds - 1);
      GuardedDisciplined({}, E1000Lock, E1000, NetRounds(m, rounds - 1));
    }
  }

  // ---- Invariants

  ghost predicate LocksOk(s: State) {
    && (forall t | 0 <= t < |s.threads| :: s.threads[t].held <= s.locked)
    && (forall t, u | 0 <= t < u < |s.threads| :: s.threads[t].held !! s.threads[u].held)
    && (forall l | l in s.locked :: exists t :: 0 <= t < |s.threads| && l in s.threads[t].held)
  }

  ghost predicate ThreadOk(th: Thread) {
    && Disciplined(th.held, th.phase, th.todo)
    && (th.phase in {Idle, Queueing} ==> th.pending == [] && th.executed == 0)
    && (th.phase == Queueing ==> AhciLock in th.held)
    && (th.phase == Taken ==> th.executed <= |th.pending|)
    && (th.phase == Executed ==> th.executed == |th.pending|)
  }

  ghost predicate QueueOk(s: State) {
    s.ahci.queue != [] ==> exists t :: 0 <= t < |s.threads| && s.threads[t].phase == Queueing
  }

  ghost predicate ControlOk(s: State) {
    LocksOk(s) && QueueOk(s) && forall t | 0 <= t < |s.threads| :: ThreadOk(s.threads[t])
  }

  /** Each request is in exactly one place, and its counters say how far it has come. */
  ghost predicate RequestOk(s: State, id: nat)
    requires id < |s.history.place| == |s.history.executions| == |s.history.completions|
  {
    match s.history.place[id]
    case InQueue => id in s.ahci.queue && s.history.executions[id] == 0 && s.history.completions[id] == 0
    case With(t) =>
      && t < |s.threads| && id in s.threads[t].pending
      && s.history.completions[id] == 0
      && s.threads[t].executed <= |s.threads[t].pending|
      && s.history.executions[id] == (if id in s.threads[t].pending[..s.threads[t].executed] then 1 else 0)
    case Finished => s.history.executions[id] == 1 && s.history.completions[id] == 1
  }

  ghost predicate ListOk(s: State, ids: seq<nat>, p: Place) {
    Distinct(ids) && forall i | 0 <= i < |ids| :: ids[i] < |s.history.place| && s.history.place[ids[i]] == p
  }

  ghost predicate LedgerOk(s: State) {
    && |s.history.slots| == |s.history.place| == |s.history.executions| == |s.history.completions|
    && ListOk(s, s.ahci.queue, InQueue)
    && (forall t | 0 <= t < |s.threads| :: ListOk(s, s.threads[t].pending, With(t)))
    && (forall id | 0 <= id < |s.history.place| :: RequestOk(s, id))
  }

  ghost predicate Outstanding(s: State, id: int) {
    0 <= id < |s.history.place| == |s.history.slots| && s.history.place[id] != Finished
  }

  /** deferred_ci is exactly the set of slots with a request in flight, one request per slot. */
  ghost predicate SlotsOk(s: State) {
    && |s.history.place| == |s.history.slots|
    && (forall id | Outstanding(s, id) :: s.history.slots[id] in s.ahci.deferred)
    && (forall i, j | Outstanding(s, i) && Outstanding(s, j) && i != j :: s.history.slots[i] != s.history.slots[j])
    && (forall x | x in s.ahci.deferred :: exists id :: Outstanding(s, id) && s.history.slots[id] == x)
    && (!s.history.resetSeen ==> s.ahci.deferred <= s.ahci.ci)
  }

  ghost predicate Inv(s: State) {
    ControlOk(s) && LedgerOk(s) && SlotsOk(s)
  }

  lemma InitialInv(n: nat)
    ensures Inv(Initial(n))
  {
  }

  // ---- Control: locks and program discipline

  lemma StepFrame(s: State, t: nat, c: Choice)
    requires Enabled(s, t, c)
    ensures |Step(s, t, c).threads| == |s.threads|
    ensures forall u | 0 <= u < |s.threads| && u != t :: Step(s, t, c).threads[u] == s.threads[u]
  {
  }

  lemma StepKeepsThread(s: State, t: nat, c: Choice)
    requires Enabled(s, t, c) && ThreadOk(s.threads[t])
    ensures ThreadOk(Step(s, t, c).threads[t])
  {
    if c.Begin? { OperationsDisciplined(c.op); }
  }

  /** How one step changes the running thread's locks and the lock words: what it newly holds was
      free, and the lock words follow. */
  lemma StepLocks(s: State, t: nat, c: Choice)
    requires Enabled(s, t, c) && ThreadOk(s.threads[t]) && s.threads[t].held <= s.locked
    ensures var s', h, h' := Step(s, t, c), s.threads[t].held, Step(s, t, c).threads[t].held;
            s'.locked == s.locked - h + h' && forall l | l in h' :: l in h || l !in s.locked
  {
  }

  lemma StepKeepsLocks(s: State, t: nat, c: Choice)
    requires Enabled(s, t, c) && ThreadOk(s.threads[t]) && LocksOk(s)
    ensures LocksOk(Step(s, t, c))
  {
    var s' := Step(s, t, c);
    StepFrame(s, t, c);
    StepLocks(s, t, c);
    KeepLocks(s, s', t);
  }

  lemma KeepLocks(s: State, s': State, t: nat)
    requires t < |s.threads| == |s'.threads| && LocksOk(s)
    requires forall u | 0 <= u < |s.threads| && u != t :: s'.threads[u] == s.threads[u]
    requires var h, h' := s.threads[t].held, s'.threads[t].held;
             s'.locked == s.locked - h + h' && forall l | l in h' :: l in h || l !in s.locked
    ensures LocksOk(s')
  {
    forall l | l in s'.locked ensures exists u :: 0 <= u < |s'.threads| && l in s'.threads[u].held {
      if l !in s'.threads[t].held {
        var u :| 0 <= u < |s.threads| && l in s.threads[u].held;
        assert l in s'.threads[u].held;
      }
    }
    forall u | 0 <= u < |s'.threads| && u != t
      ensures s'.threads[u].held !! s'.threads[t].held && s'.threads[u].held <= s'.locked
    {
      assert s.threads[u].held !! s.threads[t].held && s.threads[u].held <= s.locked;
    }
  }

  lemma StepKeepsQueueOwner(s: State, t: nat, c: Choice)
    requires Enabled(s, t, c) && ControlOk(s)
    ensures QueueOk(Step(s, t, c))
  {
    var s' := Step(s, t, c);
    StepFrame(s, t, c);
    assert ThreadOk(s.threads[t]);
    if s'.ahci.queue != [] && s'.threads[t].phase != Queueing {
      assert s'.ahci.queue == s.ahci.queue;
      var u :| 0 <= u < |s.threads| && s.threads[u].phase == Queueing;
      assert s'.threads[u].phase == Queueing;
    }
  }

  lemma StepKeepsControl(s: State, t: nat, c: Choice)
    requires ControlOk(s) && Enabled(s, t, c)
    ensures ControlOk(Step(s, t, c))
  {
    StepFrame(s, t, c);
    assert ThreadOk(s.threads[t]);
    StepKeepsThread(s, t, c);
    StepKeepsLocks(s, t, c);
    StepKeepsQueueOwner(s, t, c);
  }

  // ---- Ledger: every request is in one place and counted once

  lemma LedgerFrame(s: State, s': State)
    requires LedgerOk(s) && |s'.threads| == |s.threads|
    requires s'.history.(resetSeen := false) == s.history.(resetSeen := false)
    requires s'.ahci.queue == s.ahci.queue
    requires forall u | 0 <= u < |s.threads| ::
               s'.threads[u].pending == s.threads[u].pending && s'.threads[u].executed == s.threads[u].executed
    ensures LedgerOk(s')
  {
    forall id | 0 <= id < |s'.history.place| ensures RequestOk(s', id) {
      assert RequestOk(s, id);
    }
    forall t | 0 <= t < |s'.threads| ensures ListOk(s', s'.threads[t].pending, With(t)) {
      assert ListOk(s, s.threads[t].pending, With(t));
    }
  }

  lemma QueueingKeepsLedger(s: State, e: Effect)
    requires LedgerOk(s) && e.PortWrite?
    ensures LedgerOk(WriteTo(s, e))
  {
    var s' := WriteTo(s, e);
    var n := |s.history.place|;
    forall t | 0 <= t < |s'.threads| ensures ListOk(s', s'.threads[t].pending, With(t)) {
      assert ListOk(s, s.threads[t].pending, With(t));
    }
    forall id | 0 <= id < |s'.history.place| ensures RequestOk(s', id) {
      if id < n {
        assert RequestOk(s, id);
      } else {
        assert s'.ahci.queue[|s.ahci.queue| + id - n] == id;
      }
    }
  }

  lemma TakingKeepsLedger(s: State, t: nat, next: Program, e: Effect)
    requires LedgerOk(s) && t < |s.threads|
    requires s.threads[t].pending == [] && s.threads[t].executed == 0
    ensures LedgerOk(Perform(s, t, TakePending, next, e))
  {
    var s' := Perform(s, t, TakePending, next, e);
    forall u | 0 <= u < |s'.threads| ensures ListOk(s', s'.threads[u].pending, With(u)) {
      assert ListOk(s, s.threads[u].pending, With(u));
      if u != t {
        forall i | 0 <= i < |s.threads[u].pending|
          ensures s.threads[u].pending[i] !in s.ahci.queue
        {
          assert s.history.place[s.threads[u].pending[i]] == With(u);
        }
      }
    }
    forall id | 0 <= id < |s'.history.place| ensures RequestOk(s', id) {
      assert RequestOk(s, id);
    }
  }

  lemma ExecutingKeepsLedger(s: State, t: nat)
    requires LedgerOk(s) && t < |s.threads| && s.threads[t].executed < |s.threads[t].pending|
    ensures LedgerOk(ExecuteOne(s, t))
  {
    var s' := ExecuteOne(s, t);
    var th := s.threads[t];
    var e := th.executed;
    assert ListOk(s, th.pending, With(t));
    assert th.pending[..e + 1] == th.pending[..e] + [th.pending[e]];
    assert th.pending[e] !in th.pending[..e];
    forall u | 0 <= u < |s'.threads| ensures ListOk(s', s'.threads[u].pending, With(u)) {
      assert ListOk(s, s.threads[u].pending, With(u));
    }
    forall id | 0 <= id < |s'.history.place| ensures RequestOk(s', id) {
      assert RequestOk(s, id);
    }
  }

  lemma CompletingKeepsLedger(s: State, t: nat)
    requires LedgerOk(s) && t < |s.threads| && s.threads[t].pending != []
    requires s.threads[t].executed == |s.threads[t].pending|
    ensures LedgerOk(CompleteOne(s, t))
  {
    var s' := CompleteOne(s, t);
    var p := s.threads[t].pending;
    var p' := p[1..];
    assert ListOk(s, p, With(t));
    assert p[..|p|] == p && p'[..|p'|] == p' && p == [p[0]] + p';
    forall u | 0 <= u < |s'.threads| ensures ListOk(s', s'.threads[u].pending, With(u)) {
      assert ListOk(s, s.threads[u].pending, With(u));
    }
    assert RequestOk(s, p[0]);
    forall id | 0 <= id < |s'.history.place| ensures RequestOk(s', id) {
      assert RequestOk(s, id);
    }
  }

  lemma StepKeepsLedger(s: State, t: nat, c: Choice)
    requires LedgerOk(s) && Enabled(s, t, c) && ThreadOk(s.threads[t])
    ensures LedgerOk(Step(s, t, c))
  {
    var s', th := Step(s, t, c), s.threads[t];
    if c.Go? && th.todo.Do? && th.todo.action == WriteAhci && c.effect.PortWrite? {
      QueueingKeepsLedger(s, c.effect);
      LedgerFrame(WriteTo(s, c.effect), s');
    } else if c.Go? && th.todo.Do? && th.todo.action == TakePending {
      TakingKeepsLedger(s, t, th.todo.next, c.effect);
    } else if c.Go? && th.todo.Do? && th.todo.action == ExecuteAll && th.executed < |th.pending| {
      ExecutingKeepsLedger(s, t);
    } else if c.Go? && th.todo.Do? && th.todo.action == CompleteAll && th.pending != [] {
      CompletingKeepsLedger(s, t);
    } else {
      LedgerFrame(s, s');
    }
  }

  // ---- Slots: at most one request in flight per command slot

  lemma SlotsFrame(s: State, s': State)
    requires SlotsOk(s) && s'.history.slots == s.history.slots && |s'.history.place| == |s.history.place|
    requires forall id | 0 <= id < |s.history.place| ::
               s'.history.place[id] == Finished <==> s.history.place[id] == Finished
    requires s'.ahci.deferred == s.ahci.deferred
    requires s'.history.resetSeen || (s'.ahci.ci == s.ahci.ci && !s.history.resetSeen)
    ensures SlotsOk(s')
  {
    forall x | x in s'.ahci.deferred ensures exists id :: Outstanding(s', id) && s'.history.slots[id] == x {
      var id :| Outstanding(s, id) && s.history.slots[id] == x;
      assert Outstanding(s', id);
    }
    assert forall id :: Outstanding(s', id) <==> Outstanding(s, id);
  }

  lemma QueueingKeepsSlots(s: State, e: Effect)
    requires SlotsOk(s) && e.PortWrite? && Possible(s.ahci, e)
    requires |s.history.slots| == |s.history.place|
    ensures SlotsOk(WriteTo(s, e))
  {
    var s' := WriteTo(s, e);
    var n := |s.history.place|;
    forall id | Outstanding(s', id) ensures s'.history.slots[id] in s'.ahci.deferred {
      if id < n { assert Outstanding(s, id); } else { assert e.deferred[id - n] in e.deferred; }
    }
    forall i, j | Outstanding(s', i) && Outstanding(s', j) && i != j
      ensures s'.history.slots[i] != s'.history.slots[j]
    {
      assert i < n ==> Outstanding(s, i);
      assert j < n ==> Outstanding(s, j);
      if i >= n { assert s'.history.slots[i] == e.deferred[i - n]; }
      if j >= n { assert s'.history.slots[j] == e.deferred[j - n]; }
    }
    forall x | x in s'.ahci.deferred ensures exists id :: Outstanding(s', id) && s'.history.slots[id] == x {
      if x in s.ahci.deferred {
        var id :| Outstanding(s, id) && s.history.slots[id] == x;
        assert Outstanding(s', id);
      } else {
        var k :| 0 <= k < |e.deferred| && e.deferred[k] == x;
        assert Outstanding(s', n + k);
      }
    }
  }

  lemma CompletingKeepsSlots(s: State, t: nat)
    requires SlotsOk(s) && t < |s.threads| && s.threads[t].pending != []
    requires Outstanding(s, s.threads[t].pending[0])
    ensures SlotsOk(CompleteOne(s, t))
  {
    var s' := CompleteOne(s, t);
    var done := s.threads[t].pending[0];
    assert forall id :: Outstanding(s', id) <==> Outstanding(s, id) && id != done;
    forall x | x in s'.ahci.deferred ensures exists id :: Outstanding(s', id) && s'.history.slots[id] == x {
      var id :| Outstanding(s, id) && s.history.slots[id] == x;
      assert Outstanding(s', id);
    }
  }

  lemma StepKeepsSlots(s: State, t: nat, c: Choice)
    requires SlotsOk(s) && LedgerOk(s) && Enabled(s, t, c) && ThreadOk(s.threads[t])
    ensures SlotsOk(Step(s, t, c))
  {
    var s', th := Step(s, t, c), s.threads[t];
    if c.Go? && th.todo.Do? && th.todo.action == WriteAhci && c.effect.PortWrite? {
      QueueingKeepsSlots(s, c.effect);
    } else if c.Go? && th.todo.Do? && th.todo.action == CompleteAll && th.pending != [] {
      assert ListOk(s, th.pending, With(t));
      CompletingKeepsSlots(s, t);
    } else {
      assert ListOk(s, s.ahci.queue, InQueue);
      SlotsFrame(s, s');
    }
  }

  // ---- Main results

  lemma StepKeepsInv(s: State, t: nat, c: Choice)
    requires Inv(s) && Enabled(s, t, c)
    ensures Inv(Step(s, t, c))
  {
    assert ThreadOk(s.threads[t]);
    StepKeepsControl(s, t, c);
    StepKeepsLedger(s, t, c);
    StepKeepsSlots(s, t, c);
  }

  lemma {:induction false} ReachableInv(n: nat, steps: seq<(nat, Choice)>, s: State)
    requires Reaches(n, steps, s)
    ensures Inv(s)
    decreases |steps|
  {
    if steps == [] {
      InitialInv(n);
    } else {
      var (t, c) := steps[|steps| - 1];
      var p: State :| Reaches(n, steps[..|steps| - 1], p) && Enabled(p, t, c) && s == Step(p, t, c);
      ReachableInv(n, steps[..|steps| - 1], p);
      StepKeepsInv(p, t, c);
    }
  }

  ghost predicate Executing(th: Thread) {
    th.todo.Do? && th.todo.action == ExecuteAll
  }

  /** In every reachable state: a lock word is set exactly when one single thread holds the
      lock, the AHCI queue is empty whenever AHCI_LOCK is free, and no thread executes a
      request while it holds AHCI_LOCK. */
  lemma MutualExclusion(n: nat, steps: seq<(nat, Choice)>, s: State)
    requires Reaches(n, steps, s)
    ensures forall l :: l in s.locked <==> exists t :: 0 <= t < |s.threads| && l in s.threads[t].held
    ensures forall l, t, u | 0 <= t < |s.threads| && 0 <= u < |s.threads| ::
              l in s.threads[t].held && l in s.threads[u].held ==> t == u
    ensures AhciLock !in s.locked ==> s.ahci.queue == []
    ensures forall t | 0 <= t < |s.threads| :: Executing(s.threads[t]) ==> AhciLock !in s.threads[t].held
  {
    ReachableInv(n, steps, s);
    HoldersUnique(s);
    UnlockedIsQuiet(s);
  }

  lemma HoldersUnique(s: State)
    requires LocksOk(s)
    ensures forall l :: l in s.locked <==> exists t :: 0 <= t < |s.threads| && l in s.threads[t].held
    ensures forall l, t, u | 0 <= t < |s.threads| && 0 <= u < |s.threads| ::
              l in s.threads[t].held && l in s.threads[u].held ==> t == u
  {
  }

  lemma UnlockedIsQuiet(s: State)
    requires ControlOk(s)
    ensures AhciLock !in s.locked ==> s.ahci.queue == []
    ensures forall t | 0 <= t < |s.threads| :: Executing(s.threads[t]) ==> AhciLock !in s.threads[t].held
  {
    if s.ahci.queue != [] {
      var t :| 0 <= t < |s.threads| && s.threads[t].phase == Queueing;
      assert ThreadOk(s.threads[t]);
    }
    forall t | 0 <= t < |s.threads| && Executing(s.threads[t]) ensures AhciLock !in s.threads[t].held {
      assert ThreadOk(s.threads[t]);
    }
  }

  /** No request is executed or completed twice, none is completed before it was executed, and
      once every thread has returned each request has been through both exactly once. */
  lemma ExactlyOnce(n: nat, steps: seq<(nat, Choice)>, s: State, id: nat)
    requires Reaches(n, steps, s) && id < |s.history.slots|
    ensures |s.history.executions| == |s.history.completions| == |s.history.slots|
    ensures s.history.completions[id] <= s.history.executions[id] <= 1
    ensures (forall t | 0 <= t < |s.threads| :: s.threads[t].todo.Done?) ==>
              s.history.executions[id] == 1 && s.history.completions[id] == 1
  {
    ReachableInv(n, steps, s);
    assert RequestOk(s, id);
    if forall t | 0 <= t < |s.threads| :: s.threads[t].todo.Done? {
      AllReturned(s, id);
    }
  }

  lemma AllReturned(s: State, id: nat)
    requires Inv(s) && id < |s.history.slots|
    requires forall t | 0 <= t < |s.threads| :: s.threads[t].todo.Done?
    ensures s.history.place[id] == Finished
  {
    forall t | 0 <= t < |s.threads| ensures s.threads[t].phase == Idle && s.threads[t].pending == [] {
      assert ThreadOk(s.threads[t]);
    }
    assert RequestOk(s, id);
  }

  /** The deferred_ci bits are exactly the slots of the requests in flight, never two for one
      slot, and as long as the guest has not reset the HBA their PORT_CI bits stay set. */
  lemma DeferredSlots(n: nat, steps: seq<(nat, Choice)>, s: State)
    requires Reaches(n, steps, s)
    ensures |s.history.place| == |s.history.slots|
    ensures forall x :: x in s.ahci.deferred <==> exists id :: Outstanding(s, id) && s.history.slots[id] == x
    ensures forall i, j | Outstanding(s, i) && Outstanding(s, j) && s.history.slots[i] == s.history.slots[j] :: i == j
    ensures !s.history.resetSeen ==> s.ahci.deferred <= s.ahci.ci
  {
    ReachableInv(n, steps, s);
  }

  // ---- Deadlock

  ghost predicate CanGo(s: State, t: nat) {
    exists e :: Enabled(s, t, Go(e))
  }

  /** Thread `t` spins on a lock that thread `u` holds. */
  ghost predicate Waits(s: State, t: nat, u: nat) {
    && t < |s.threads| && u < |s.threads|
    && s.threads[t].todo.Do? && s.threads[t].todo.action.Acquire?
    && s.threads[t].todo.action.lock in s.threads[u].held
  }

  function WaitRank(s: State, t: nat): nat
    requires t < |s.threads|
  {
    var p := s.threads[t].todo;
    if p.Do? && p.action.Acquire? then Rank(p.action.lock) else 4
  }

  lemma WaitsUpward(s: State, t: nat, u: nat)
    requires Waits(s, t, u) && ThreadOk(s.threads[u])
    ensures !s.threads[u].todo.Done? && WaitRank(s, t) < WaitRank(s, u)
  {
    HolderIsBusy(s.threads[u], s.threads[t].todo.action.lock);
  }

  lemma HolderIsBusy(th: Thread, l: Lock)
    requires l in th.held && Disciplined(th.held, th.phase, th.todo)
    ensures !th.todo.Done?
    ensures th.todo.Do? && th.todo.action.Acquire? ==> Rank(l) < Rank(th.todo.action.lock)
  {
  }

  /** No reachable state has a cycle of threads each waiting for the next one's lock. */
  lemma NoCyclicWait(n: nat, steps: seq<(nat, Choice)>, s: State, cycle: seq<nat>)
    requires Reaches(n, steps, s)
    requires |cycle| >= 2 && forall i | 0 <= i < |cycle| - 1 :: Waits(s, cycle[i], cycle[i + 1])
    ensures cycle[0] != cycle[|cycle| - 1]
  {
    ReachableInv(n, steps, s);
    var i := 1;
    assert Waits(s, cycle[0], cycle[1]) && ThreadOk(s.threads[cycle[1]]);
    WaitsUpward(s, cycle[0], cycle[1]);
    while i < |cycle| - 1
      invariant 1 <= i < |cycle| && cycle[i] < |s.threads|
      invariant WaitRank(s, cycle[0]) < WaitRank(s, cycle[i])
    {
      assert Waits(s, cycle[i], cycle[i + 1]) && ThreadOk(s.threads[cycle[i + 1]]);
      WaitsUpward(s, cycle[i], cycle[i + 1]);
      i := i + 1;
    }
  }

  lemma {:induction false} SomeoneCanGo(s: State, t: nat) returns (u: nat)
    requires ControlOk(s) && t < |s.threads| && !s.threads[t].todo.Done?
    ensures u < |s.threads| && CanGo(s, u)
    decreases 4 - WaitRank(s, t)
  {
    hide CanGo, ThreadOk, Disciplined;
    var p := s.threads[t].todo;
    if p.Do? && p.action.Acquire? && p.action.lock in s.locked {
      var holder :| 0 <= holder < |s.threads| && p.action.lock in s.threads[holder].held;
      assert ThreadOk(s.threads[holder]);
      WaitsUpward(s, t, holder);
      u := SomeoneCanGo(s, holder);
    } else {
      u := t;
      FreeThreadCanGo(s, t);
    }
  }

  lemma FreeThreadCanGo(s: State, t: nat)
    requires t < |s.threads|
    requires var p := s.threads[t].todo;
             !p.Done? && (p.Do? && p.action.Acquire? ==> p.action.lock !in s.locked)
    ensures CanGo(s, t)
  {
    assert Enabled(s, t, Go(PortWrite({}, {}, [])));
  }

  /** As long as some entry point has not returned, some thread can take a step. */
  lemma NoDeadlock(n: nat, steps: seq<(nat, Choice)>, s: State)
    requires Reaches(n, steps, s)
    ensures (exists t :: 0 <= t < |s.threads| && !s.threads[t].todo.Done?) ==>
              exists u :: 0 <= u < |s.threads| && CanGo(s, u)
  {
    ReachableInv(n, steps, s);
    if t :| 0 <= t < |s.threads| && !s.threads[t].todo.Done? {
      var u := SomeoneCanGo(s, t);
    }
  }

  // ---- Device accesses and their locks

  /** The locks an access must hold: the E1000's mutex for the E1000, AHCI_LOCK for a change of the
      AHCI controller, whose register reads need none, and MMIO_LOCK for every other device of the
      router. No AHCI access must hold MMIO_LOCK, because disk requests wait. */
  predicate Protected(held: set<Lock>, d: Device, change: bool) {
    match d
    case Ahci => MmioLock !in held && (change ==> AhciLock in held)
    case E1000 => E1000Lock in held
    case _ => MmioLock in held
  }

  ghost predicate TouchesProtected(held: set<Lock>, p: Program)
    decreases p
  {
    match p
    case Done => true
    case Do(a, next) =>
      (match a
       case Acquire(l) => TouchesProtected(held + {l}, next)
       case Release(l) => TouchesProtected(held - {l}, next)
       case Touch(d) => Protected(held, d, false) && TouchesProtected(held, next)
       case Update(d) => Protected(held, d, true) && TouchesProtected(held, next)
       case WriteAhci => Protected(held, Ahci, true) && TouchesProtected(held, next)
       case _ => TouchesProtected(held, next))
    case TryLock(l, taken, skipped) => TouchesProtected(held + {l}, taken) && TouchesProtected(held, skipped)
    case IfPending(some, none) => TouchesProtected(held, some) && TouchesProtected(held, none)
  }

  /** The operations that stay inside the lock discipline: MMIO exits whose lock test and routing
      agree, and of the others those whose unlocked devices are not there. */
  predicate StaysProtected(op: Operation) {
    match op
    case MmioExit(tested, routed, addr, isWrite) =>
      var d := Dispatch(routed, addr, isWrite).device;
      if IsAhciMmio(tested, addr) then d in {Ahci, E1000} else d != Ahci
    case PortIo(m, port, count) => port.VgaPort? && m.svga ==> count == 0
    case PollIrqs(m) => !m.hpet
    case NetPoll(m, rounds) => m.virtioNet ==> rounds == 0
    case HostCall(m, call) => (
      match call
      case VirtioGpuProcess => !m.virtioGpu
      case VirtioGpuView => !m.virtioGpu
      case IntelGpuView => !m.intelGpu
      case VgaView => !m.svga
      case VirtioNetProcessRx => !m.virtioNet
      case KeyPress => !m.virtioKbd
      case Ps2Key(mapped) => !(m.virtioKbd && mapped)
      case TabletMove => !m.virtioTablet
      case InputProcess => !m.virtioKbd && !m.virtioTablet)
    case SetActivityCallbacks(m) => !m.ahci && !m.virtioNet
    case _ => true
  }

  lemma GuardedProtected(held: set<Lock>, l: Lock, d: Device, k: Program)
    requires l !in held
    ensures TouchesProtected(held, Guarded(l, d, k)) <==> Protected(held + {l}, d, true) && TouchesProtected(held, k)
  {
    assert held + {l} - {l} == held;
    assert TouchesProtected(held + {l}, Do(Release(l), k)) <==> TouchesProtected(held, k);
  }

  lemma AccessProtected(held: set<Lock>, d: Device, isWrite: bool, k: Program)
    requires held <= {MmioLock} && TouchesProtected(held, k)
    ensures TouchesProtected(held, Access(d, isWrite, k)) <==> d == E1000 || (d == Ahci <==> MmioLock !in held)
  {
    if d == E1000 {
      GuardedProtected(held, E1000Lock, d, k);
    } else if d == Ahci && isWrite {
      var locked := held + {AhciLock};
      assert locked - {AhciLock} == held;
      var complete := Do(CompleteAll, Do(Release(AhciLock), k));
      assert TouchesProtected(locked, complete);
      var some := Do(ExecuteAll, Do(Acquire(AhciLock), complete));
      assert TouchesProtected(held, some);
      var release := Do(Release(AhciLock), IfPending(some, k));
      assert TouchesProtected(locked, release);
      assert TouchesProtected(locked, Do(TakePending, release));
    }
  }

  lemma {:induction false} NetRoundsProtected(m: Machine, rounds: nat)
    ensures TouchesProtected({}, NetRounds(m, rounds)) <==> (m.virtioNet ==> rounds == 0)
  {
    if rounds > 0 {
      NetRoundsProtected(m, rounds - 1);
      GuardedProtected({}, E1000Lock, E1000, NetRounds(m, rounds - 1));
    }
  }

  lemma TouchesProtect(held: set<Lock>, present: bool, d: Device, k: Program)
    ensures TouchesProtected(held, TouchAll(Present(present, d), k)) <==>
            (present ==> Protected(held, d, false)) && TouchesProtected(held, k)
  {
    if present {
      assert TouchAll([d][1..], k) == k;
    }
  }

  lemma {:induction false} PortProtected(m: Machine, port: PortTarget, count: nat, k: Program)
    requires TouchesProtected({IoLock}, k)
    ensures TouchesProtected({IoLock}, PortAccesses(m, port, count, k)) <==>
            (port.VgaPort? && m.svga ==> count == 0)
  {
    if count > 0 {
      PortProtected(m, port, count - 1, k);
      var rest := PortAccesses(m, port, count - 1, k);
      GuardedProtected({IoLock}, E1000Lock, E1000, rest);
      TouchesProtect({IoLock}, m.svga, VgaDispi, rest);
    }
  }

  lemma PollProtected(m: Machine)
    ensures TouchesProtected({}, ProgramOf(PollIrqs(m))) <==> !m.hpet
  {
    hide TouchesProtected;
    DoneProtected();
    var p4 := If(m.virtioTablet, MmioLock, VirtioTablet, Done);
    var p3 := If(m.virtioKbd, MmioLock, VirtioKbd, p4);
    var p2 := If(m.virtioNet, MmioLock, VirtioNet, p3);
    var p1 := If(m.virtioGpu, MmioLock, VirtioGpu, p2);
    var pt := TouchAll(Present(m.hpet, Hpet), p1);
    var p0 := If(m.e1000, E1000Lock, E1000, pt);
    GuardedProtected({}, MmioLock, VirtioTablet, Done);
    GuardedProtected({}, MmioLock, VirtioKbd, p4);
    GuardedProtected({}, MmioLock, VirtioNet, p3);
    GuardedProtected({}, MmioLock, VirtioGpu, p2);
    TouchesProtect({}, m.hpet, Hpet, p1);
    GuardedProtected({}, E1000Lock, E1000, pt);
    PollTailProtected(m.ahci, p0);
  }

  lemma DoneProtected()
    ensures TouchesProtected({}, Done)
  {}

  lemma PollTailProtected(ahci: bool, k: Program)
    ensures TouchesProtected({}, Do(Acquire(IoLock), Do(Release(IoLock),
              if ahci then TryLock(AhciLock, Do(Update(Ahci), Do(Release(AhciLock), k)), k) else k)))
            <==> TouchesProtected({}, k)
  {
    assert {} + {AhciLock} - {AhciLock} == {} && {} + {IoLock} - {IoLock} == {};
    var inner := Do(Update(Ahci), Do(Release(AhciLock), k));
    assert TouchesProtected({} + {AhciLock}, inner) <==> TouchesProtected({}, k);
    var tail := if ahci then TryLock(AhciLock, inner, k) else k;
    assert TouchesProtected({}, tail) <==> TouchesProtected({}, k);
    assert TouchesProtected({} + {IoLock}, Do(Release(IoLock), tail)) <==> TouchesProtected({}, k);
  }

  lemma HostCallProtected(m: Machine, call: Call)
    ensures TouchesProtected({}, ProgramOf(HostCall(m, call))) <==> StaysProtected(HostCall(m, call))
  {
    hide TouchesProtected;
    DoneProtected();
    match call
    case VirtioGpuProcess => TouchesProtect({}, m.virtioGpu, VirtioGpu, Done);
    case VirtioGpuView => TouchesProtect({}, m.virtioGpu, VirtioGpu, Done);
    case IntelGpuView => TouchesProtect({}, m.intelGpu, IntelGpuVram, Done);
    case VgaView => TouchesProtect({}, m.svga, VgaMemory, Done);
    case VirtioNetProcessRx => TouchesProtect({}, m.virtioNet, VirtioNet, Done);
    case KeyPress => TouchesProtect({}, m.virtioKbd, VirtioKbd, Done);
    case Ps2Key(mapped) => TouchesProtect({}, m.virtioKbd && mapped, VirtioKbd, Done);
    case TabletMove => TouchesProtect({}, m.virtioTablet, VirtioTablet, Done);
    case InputProcess => InputProtected(m);
  }

  lemma InputProtected(m: Machine)
    ensures TouchesProtected({}, TouchAll(TouchedBy(m, InputProcess), Done)) <==> !m.virtioKbd && !m.virtioTablet
  {
    var kbd, tablet := Present(m.virtioKbd, VirtioKbd), Present(m.virtioTablet, VirtioTablet);
    if m.virtioKbd {
      assert (kbd + tablet)[1..] == tablet;
    } else {
      assert kbd + tablet == tablet;
    }
    TouchesProtect({}, m.virtioTablet, VirtioTablet, Done);
  }

  /** An entry point makes an access without the lock it needs, or an AHCI access under MMIO_LOCK,
      exactly when it is an MMIO exit whose lock test and routing disagree about AHCI, a port access
      to the VGA adapter, an IRQ poll with an HPET, a VirtIO network poll, one of the host's calls
      on a device that is there, or the setting of callbacks on AHCI or VirtIO-Net. */
  lemma ProtectedExactly(op: Operation)
    ensures TouchesProtected({}, ProgramOf(op)) <==> StaysProtected(op)
  {
    match op
    case MmioExit(tested, routed, addr, isWrite) =>
      var d := Dispatch(routed, addr, isWrite).device;
      AccessProtected({}, d, isWrite, Done);
      assert {} + {MmioLock} == {MmioLock};
      AccessProtected({MmioLock}, d, isWrite, Do(Release(MmioLock), Done));
    case PortIo(m, port, count) =>
      assert {} + {IoLock} == {IoLock};
      PortProtected(m, port, count, Do(Release(IoLock), Done));
    case PollIrqs(m) => PollProtected(m);
    case AhciSection => GuardedProtected({}, AhciLock, Ahci, Done);
    case AhciNeedsFlush =>
    case E1000Section => GuardedProtected({}, E1000Lock, E1000, Done);
    case NetPoll(m, rounds) => NetRoundsProtected(m, rounds);
    case HostCall(m, call) => HostCallProtected(m, call);
    case SetActivityCallbacks(m) =>
      var p1 := TouchAll(Present(m.virtioNet, VirtioNet), Done);
      TouchesProtect({}, m.virtioNet, VirtioNet, Done);
      GuardedProtected({}, E1000Lock, E1000, p1);
      assert !TouchesProtected({}, Do(Update(Ahci), If(m.e1000, E1000Lock, E1000, p1)));
  }

  /** With BARs that do not move, every MMIO exit is protected exactly when the AHCI window lies in
      the router's catch-all region and is disjoint from every region registered before it, and
      skipping MMIO_LOCK means AHCI exactly when it is also disjoint from the E1000 window. */
  lemma FixedBars(m: Machine)
    ensures (forall addr: nat, isWrite: bool :: StaysProtected(MmioExit(m, m, addr, isWrite)))
            <==> AhciWindowRouted(m)
    ensures (forall addr: nat, isWrite: bool :: IsAhciMmio(m, addr) <==> Dispatch(m, addr, isWrite).device == Ahci)
            <==> (AhciWindowRouted(m)
                  && WindowsDisjoint(m.AhciBase(), AHCI_WINDOW, m.E1000Base(), E1000_WINDOW))
  {
    hide Dispatch, AhciWindowRouted;
    TestImpliesAhciExactly(m);
    forall addr: nat, isWrite: bool
      ensures Dispatch(m, addr, isWrite).device == Ahci ==> IsAhciMmio(m, addr)
      ensures StaysProtected(MmioExit(m, m, addr, isWrite)) <==> (IsAhciMmio(m, addr) ==> ReachesRouter(m, addr))
    {
      ExitProtected(m, addr, isWrite);
    }
    AhciWindowReaches(m);
    if !AhciWindowRouted(m) {
      var addr: nat :| IsAhciMmio(m, addr) && !ReachesRouter(m, addr);
      assert !StaysProtected(MmioExit(m, m, addr, true));
    }
  }

  lemma ExitProtected(m: Machine, addr: nat, isWrite: bool)
    ensures Dispatch(m, addr, isWrite).device == Ahci ==> IsAhciMmio(m, addr)
    ensures StaysProtected(MmioExit(m, m, addr, isWrite)) <==> (IsAhciMmio(m, addr) ==> ReachesRouter(m, addr))
  {
    ChainsAgree(m, addr);
  }

  lemma AhciWindowReaches(m: Machine)
    ensures AhciWindowRouted(m) <==> forall addr: nat | IsAhciMmio(m, addr) :: ReachesRouter(m, addr)
  {
    var a := m.AhciBase();
    if a != 0 {
      assert forall addr: nat :: IsAhciMmio(m, addr) <==> a <= addr < a + AHCI_WINDOW;
      WindowReachesRouter(m, a, AHCI_WINDOW);
    }
  }

  /** A guest that moves AHCI's BAR5 onto the DISPI page makes an exit touch the VGA adapter with
      no lock at all. */
  lemma DispiPageUnprotected(m: Machine, vram: nat, later: seq<Region>, isWrite: bool)
    requires m.regions == StandardRegions(vram) + [Router] + later && vram <= 0x1000_0000
    requires m.ahci && m.pciBus && m.bars.ahciBar5 == 0xFEBE_0000
    ensures ProgramOf(MmioExit(m, m, 0xFEBE_0000, isWrite)) == Do(Touch(VgaDispi), Done)
    ensures !StaysProtected(MmioExit(m, m, 0xFEBE_0000, isWrite))
  {
    hide Dispatch, IsAhciMmio;
    DispiPageShadowsAhci(m, vram, later, isWrite);
  }

  /** In every run whose entry points all stay protected, each device access happens under the
      lock of its device. */
  lemma {:induction false} AccessesLocked(n: nat, steps: seq<(nat, Choice)>, s: State)
    requires Reaches(n, steps, s)
    requires forall i | 0 <= i < |steps| :: steps[i].1.Begin? ==> StaysProtected(steps[i].1.op)
    ensures forall t | 0 <= t < |s.threads| :: TouchesProtected(s.threads[t].held, s.threads[t].todo)
    decreases |steps|
  {
    if steps != [] {
      var (t, c) := steps[|steps| - 1];
      var p: State :| Reaches(n, steps[..|steps| - 1], p) && Enabled(p, t, c) && s == Step(p, t, c);
      AccessesLocked(n, steps[..|steps| - 1], p);
      ReachableInv(n, steps[..|steps| - 1], p);
      assert ThreadOk(p.threads[t]);
      StepFrame(p, t, c);
      assert TouchesProtected(p.threads[t].held, p.threads[t].todo);
      if c.Begin? { ProtectedExactly(c.op); }
    }
  }

  // ---- Races

  /** The access a thread is about to make, and whether it changes the device. */
  function NextAccess(th: Thread): Option<(Device, bool)> {
    match th.todo
    case Do(Touch(d), _) => Some((d, false))
    case Do(Update(d), _) => Some((d, true))
    case Do(WriteAhci, _) => Some((Ahci, true))
    case Do(TakePending, _) => Some((Ahci, true))
    case Do(CompleteAll, _) => Some((Ahci, true))
    case _ => None
  }

  /** Two accesses that must not meet: changes of the AHCI controller, accesses to the E1000, and any
      two to the other devices of the router, of which some are windows of one adapter. The register
      reads of AHCI are single words and may meet a change. */
  predicate Conflict(a: (Device, bool), b: (Device, bool)) {
    match (a.0, b.0)
    case (Ahci, Ahci) => a.1 && b.1
    case (Ahci, _) => false
    case (_, Ahci) => false
    case (E1000, E1000) => true
    case (E1000, _) => false
    case (_, E1000) => false
    case _ => true
  }

  /** In no state of protected entry points are two threads about to make conflicting accesses. */
  lemma NoRaces(n: nat, steps: seq<(nat, Choice)>, s: State, t: nat, u: nat)
    requires Reaches(n, steps, s)
    requires forall i | 0 <= i < |steps| :: steps[i].1.Begin? ==> StaysProtected(steps[i].1.op)
    requires t < |s.threads| && u < |s.threads| && t != u
    requires NextAccess(s.threads[t]).Some? && NextAccess(s.threads[u]).Some?
    ensures !Conflict(NextAccess(s.threads[t]).value, NextAccess(s.threads[u]).value)
  {
    hide Reaches, StaysProtected;
    AccessesLocked(n, steps, s);
    ReachableInv(n, steps, s);
    HoldersUnique(s);
    assert ThreadOk(s.threads[t]) && ThreadOk(s.threads[u]);
    AccessHolds(s.threads[t]);
    AccessHolds(s.threads[u]);
  }

  lemma AccessHolds(th: Thread)
    requires ThreadOk(th) && TouchesProtected(th.held, th.todo) && NextAccess(th).Some?
    ensures var (d, change) := NextAccess(th).value;
            match d
            case Ahci => change ==> AhciLock in th.held
            case E1000 => E1000Lock in th.held
            case _ => MmioLock in th.held
  {}
}
