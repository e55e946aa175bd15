// What an HBA reset does to the requests in flight. It clears PORT_CI and leaves deferred_ci alone.
module SmpReset {
  import opened MmioRouter
  import opened SmpDispatch
  import opened SmpSafety

  // ---- When the slots in flight stay covered

  /** Every slot in flight reads as busy. */
  ghost predicate Covered(s: State) { s.ahci.deferred <= s.ahci.ci }

  ghost predicate Writes(s: State, t: nat, c: Choice) {
    t < |s.threads| && c.Go? && s.threads[t].todo.Do? && s.threads[t].todo.action == WriteAhci
  }

  /** An HBA reset with requests in flight. */
  ghost predicate Uncovers(s: State, t: nat, c: Choice) {
    Writes(s, t, c) && c.effect.HbaReset? && s.ahci.deferred != {}
  }

  lemma StepCoverExactly(s: State, t: nat, c: Choice)
    requires Enabled(s, t, c) && Covered(s)
    ensures Covered(Step(s, t, c)) <==> !Uncovers(s, t, c)
  {}

  ghost predicate CoveredThroughout(n: nat, steps: seq<(nat, Choice)>) {
    forall i: nat, p: State | i <= |steps| && Reaches(n, steps[..i], p) :: Covered(p)
  }

  ghost predicate SomeResetUncovers(n: nat, steps: seq<(nat, Choice)>) {
    exists i: nat, p: State :: i < |steps| && Reaches(n, steps[..i], p) && Uncovers(p, steps[i].0, steps[i].1)
  }

  lemma {:induction false} RunIsUnique(n: nat, steps: seq<(nat, Choice)>, s: State, s': State)
    requires Reaches(n, steps, s) && Reaches(n, steps, s')
    ensures s == s'
    decreases |steps|
  {
    hide Step, Enabled;
    if steps != [] {
      var front := steps[..|steps| - 1];
      var (t, c) := steps[|steps| - 1];
      var p: State :| Reaches(n, front, p) && Enabled(p, t, c) && s == Step(p, t, c);
      var p': State :| Reaches(n, front, p') && Enabled(p', t, c) && s' == Step(p', t, c);
      RunIsUnique(n, front, p, p');
    }
  }

  /** In any run, the slots in flight read as busy all the time if and only if the guest never resets
      the HBA while requests are in flight. */
  lemma {:induction false} CoverExactly(n: nat, steps: seq<(nat, Choice)>, s: State)
    requires Reaches(n, steps, s)
    ensures CoveredThroughout(n, steps) <==> !SomeResetUncovers(n, steps)
    decreases |steps|
  {
    hide Step, Enabled, Uncovers, Covered;
    if steps == [] {
      InitiallyCovered(n);
    } else {
      var k := |steps| - 1;
      var front := steps[..k];
      var (t, c) := steps[k];
      var p: State :| Reaches(n, front, p) && Enabled(p, t, c) && s == Step(p, t, c);
      CoverExactly(n, front, p);
      assert steps[..|steps|] == steps;
      assert forall i: nat | i <= k :: steps[..i] == front[..i];
      forall q | Reaches(n, steps, q) ensures q == s { RunIsUnique(n, steps, q, s); }
      forall q | Reaches(n, front, q) ensures q == p { RunIsUnique(n, front, q, p); }
      assert CoveredThroughout(n, steps) <==> CoveredThroughout(n, front) && Covered(s);
      assert SomeResetUncovers(n, steps) <==> SomeResetUncovers(n, front) || Uncovers(p, t, c) by {
        assert steps[..k] == front;
      }
      if CoveredThroughout(n, front) {
        assert front[..k] == front && Covered(p);
        StepCoverExactly(p, t, c);
      }
    }
  }

  lemma InitiallyCovered(n: nat)
    ensures Covered(Initial(n))
  {}

  // ---- Commands that get lost

  ghost predicate IssuesFree(p: State, t: nat, c: Choice) {
    Writes(p, t, c) && c.effect.PortWrite? ==> c.effect.issued !! p.ahci.ci
  }

  ghost predicate IssuesInFlight(p: State, t: nat, c: Choice) {
    Writes(p, t, c) && c.effect.PortWrite? && c.effect.issued * p.ahci.deferred != {}
  }

  /** The guest issues commands only in slots it reads as free. */
  ghost predicate WellBehaved(n: nat, steps: seq<(nat, Choice)>) {
    forall i: nat, p: State | i < |steps| && Reaches(n, steps[..i], p) :: IssuesFree(p, steps[i].0, steps[i].1)
  }

  /** Some command is issued in a slot that is in flight. */
  ghost predicate HitsInFlight(n: nat, steps: seq<(nat, Choice)>) {
    exists i: nat, p: State ::
      i < |steps| && Reaches(n, steps[..i], p) && IssuesInFlight(p, steps[i].0, steps[i].1)
  }

  /** A well-behaved guest hits a slot in flight only in a run with a reset that uncovers one. */
  lemma LossNeedsReset(n: nat, steps: seq<(nat, Choice)>, s: State)
    requires Reaches(n, steps, s) && WellBehaved(n, steps) && HitsInFlight(n, steps)
    ensures SomeResetUncovers(n, steps)
  {
    hide Reaches, Writes, SomeResetUncovers;
    var i: nat, p: State :| i < |steps| && Reaches(n, steps[..i], p) && IssuesInFlight(p, steps[i].0, steps[i].1);
    assert IssuesFree(p, steps[i].0, steps[i].1);
    assert !Covered(p);
    CoverExactly(n, steps, s);
  }

  lemma Extend(n: nat, steps: seq<(nat, Choice)>, s: State, t: nat, c: Choice)
    requires Reaches(n, steps, s) && Enabled(s, t, c)
    ensures Reaches(n, steps + [(t, c)], Step(s, t, c))
  {
    var steps' := steps + [(t, c)];
    assert steps'[..|steps'| - 1] == steps && steps'[|steps'| - 1] == (t, c);
    assert Reaches(n, steps'[..|steps'| - 1], s);
  }

  const IDLE: Thread := Thread({}, Idle, Done, [], 0)

  function Complete(): Program { Do(Acquire(AhciLock), Do(CompleteAll, Do(Release(AhciLock), Done))) }

  function AfterTake(): Program { IfPending(Do(ExecuteAll, Complete()), Done) }

  function AfterWrite(): Program { Do(TakePending, Do(Release(AhciLock), AfterTake())) }

  function Placed(s: State, t: nat, th: Thread, locked: set<Lock>): State
    requires t < |s.threads|
  {
    SetThread(s, t, th).(locked := locked)
  }

  /** Thread `t` begins an MMIO write to the AHCI window and takes AHCI_LOCK. */
  lemma BeginWrite(n: nat, steps: seq<(nat, Choice)>, s: State, t: nat, m: Machine, addr: nat)
    returns (steps': seq<(nat, Choice)>, s': State)
    requires Dispatch(m, addr, true).device == Ahci
    requires Reaches(n, steps, s) && t < |s.threads| && s.threads[t] == IDLE && s.locked == {}
    ensures Reaches(n, steps', s') && steps <= steps'
    ensures s' == Placed(s, t, Thread({AhciLock}, Idle, Do(WriteAhci, AfterWrite()), [], 0), {AhciLock})
  {
    hide Reaches, Dispatch;
    RoutedAhciPassesTest(m, addr, true);
    var begin, go := Begin(MmioExit(m, m, addr, true)), Go(HbaReset);
    Extend(n, steps, s, t, begin);
    steps', s' := steps + [(t, begin)], Step(s, t, begin);
    assert s'.threads[t] == Thread({}, Idle, Access(Ahci, true, Done), [], 0);
    assert Access(Ahci, true, Done) == Do(Acquire(AhciLock), Do(WriteAhci, AfterWrite()));
    Extend(n, steps', s', t, go);
    var last := s';
    steps', s' := steps' + [(t, go)], Step(s', t, go);
    assert s' == SetThread(last, t, s'.threads[t]).(locked := last.locked + {AhciLock});
    assert s'.threads[t] == Thread({AhciLock}, Idle, Do(WriteAhci, AfterWrite()), [], 0);
    assert s'.threads == s.threads[t := s'.threads[t]] && s'.locked == {AhciLock};
  }

  /** The write itself, then the queue is taken and the lock released. */
  lemma FinishWrite(n: nat, steps: seq<(nat, Choice)>, s: State, t: nat, e: Effect)
    returns (steps': seq<(nat, Choice)>, s': State)
    requires Reaches(n, steps, s) && t < |s.threads| && s.locked == {AhciLock} && Possible(s.ahci, e)
    requires s.threads[t] == Thread({AhciLock}, Idle, Do(WriteAhci, AfterWrite()), [], 0)
    ensures Reaches(n, steps', s') && steps + [(t, Go(e))] <= steps'
    ensures var w := WriteTo(s, e);
            s' == Placed(w, t, Thread({}, Taken, AfterTake(), w.ahci.queue, 0), {})
                    .(ahci := w.ahci.(queue := []),
                      history := w.history.(place := Move(w.history.place, w.ahci.queue, With(t))))
  {
    hide Reaches, WriteTo, Move;
    var go, w := Go(e), WriteTo(s, e);
    WriteToThreads(s, e);
    Extend(n, steps, s, t, go);
    steps', s' := steps + [(t, go)], Step(s, t, go);
    assert s' == SetThread(w, t, Thread({AhciLock}, Queueing, AfterWrite(), [], 0));
    Extend(n, steps', s', t, go);
    steps', s' := steps' + [(t, go)], Step(s', t, go);
    var th := Thread({AhciLock}, Taken, Do(Release(AhciLock), AfterTake()), w.ahci.queue, 0);
    assert s'.threads == w.threads[t := th];
    Extend(n, steps', s', t, go);
    steps', s' := steps' + [(t, go)], Step(s', t, go);
    assert s'.threads[t] == Thread({}, Taken, AfterTake(), w.ahci.queue, 0);
    assert s'.threads == w.threads[t := s'.threads[t]] && s'.locked == {};
  }

  lemma WriteToThreads(s: State, e: Effect)
    ensures WriteTo(s, e).threads == s.threads && WriteTo(s, e).locked == s.locked
  {}

  /** With nothing pending the entry point returns. */
  lemma ReturnAtOnce(n: nat, steps: seq<(nat, Choice)>, s: State, t: nat)
    returns (steps': seq<(nat, Choice)>, s': State)
    requires Reaches(n, steps, s) && t < |s.threads| && s.threads[t] == Thread({}, Taken, AfterTake(), [], 0)
    ensures Reaches(n, steps', s') && steps <= steps' && s' == SetThread(s, t, IDLE)
  {
    hide Reaches;
    var go := Go(HbaReset);
    Extend(n, steps, s, t, go);
    steps', s' := steps + [(t, go)], Step(s, t, go);
  }

  /** With one request pending it is executed and completed first. */
  lemma RunPending(n: nat, steps: seq<(nat, Choice)>, s: State, t: nat, id: nat)
    returns (steps': seq<(nat, Choice)>, s': State)
    requires Reaches(n, steps, s) && t < |s.threads| && s.locked == {} && id < |s.history.slots|
    requires s.threads[t] == Thread({}, Taken, AfterTake(), [id], 0)
    ensures Reaches(n, steps', s') && steps <= steps' && s'.threads == s.threads[t := IDLE] && s'.locked == {}
    ensures var slot := s.history.slots[id];
            s'.ahci == s.ahci.(ci := s.ahci.ci - {slot}, deferred := s.ahci.deferred - {slot})
    ensures s'.history.slots == s.history.slots
  {
    hide Reaches, Move, Bump;
    steps', s' := ExecutePending(n, steps, s, t, id);
    var go := Go(HbaReset);
    var executed := s';
    Extend(n, steps', s', t, go);
    steps', s' := steps' + [(t, go)], Step(s', t, go);
    assert s'.threads[t] == Thread({AhciLock}, Executed, Do(CompleteAll, Do(Release(AhciLock), Done)), [id], 1);
    Extend(n, steps', s', t, go);
    steps', s' := steps' + [(t, go)], Step(s', t, go);
    assert s'.threads[t] == Thread({AhciLock}, Executed, Do(CompleteAll, Do(Release(AhciLock), Done)), [], 0);
    Extend(n, steps', s', t, go);
    steps', s' := steps' + [(t, go)], Step(s', t, go);
    Extend(n, steps', s', t, go);
    steps', s' := steps' + [(t, go)], Step(s', t, go);
    assert s'.threads[t] == IDLE && s'.locked == {};
  }

  lemma ExecutePending(n: nat, steps: seq<(nat, Choice)>, s: State, t: nat, id: nat)
    returns (steps': seq<(nat, Choice)>, s': State)
    requires Reaches(n, steps, s) && t < |s.threads| && s.locked == {} && id < |s.history.slots|
    requires s.threads[t] == Thread({}, Taken, AfterTake(), [id], 0)
    ensures Reaches(n, steps', s') && steps <= steps' && s'.locked == {} && s'.ahci == s.ahci
    ensures s'.threads == s.threads[t := Thread({}, Executed, Complete(), [id], 1)]
    ensures s'.history.slots == s.history.slots
  {
    hide Reaches, Bump;
    var go := Go(HbaReset);
    Extend(n, steps, s, t, go);
    steps', s' := steps + [(t, go)], Step(s, t, go);
    Extend(n, steps', s', t, go);
    steps', s' := steps' + [(t, go)], Step(s', t, go);
    Extend(n, steps', s', t, go);
    steps', s' := steps' + [(t, go)], Step(s', t, go);
  }

  /** Two threads: the first queues a request for slot `x` and is still to execute it when the second
      resets the HBA. The slot is in flight and reads as free. */
  lemma ResetUncoversSlot(m: Machine, addr: nat, x: Slot) returns (steps: seq<(nat, Choice)>, s: State)
    requires Dispatch(m, addr, true).device == Ahci
    ensures Reaches(2, steps, s) && s.ahci == Controller({}, {x}, []) && s.history.slots == [x]
    ensures s.threads == [Thread({}, Taken, AfterTake(), [0], 0), IDLE] && s.locked == {}
  {
    hide Reaches, Step, Dispatch, Enabled;
    var issue := PortWrite({x}, {}, [x]);
    StartReaches();
    steps, s := BeginWrite(2, [], Initial(2), 0, m, addr);
    steps, s := FinishWrite(2, steps, s, 0, issue);
    assert WriteTo(Initial(2), issue).ahci == Controller({x}, {x}, [0]);
    assert s.threads == [Thread({}, Taken, AfterTake(), [0], 0), IDLE];
    steps, s := BeginWrite(2, steps, s, 1, m, addr);
    steps, s := FinishWrite(2, steps, s, 1, HbaReset);
    steps, s := ReturnAtOnce(2, steps, s, 1);
  }

  lemma StartReaches()
    ensures Reaches(2, [], Initial(2)) && Initial(2).threads == [IDLE, IDLE]
  {}

  /** The run goes on: the second thread issues a command in the slot, which reads as free. No request
      ever comes of it, and once both threads have returned the slot reads as free again, as if the
      command had been carried out. */
  lemma CommandIsLost(m: Machine, addr: nat, x: Slot)
    returns (front: seq<(nat, Choice)>, mid: State, steps: seq<(nat, Choice)>, s: State)
    requires Dispatch(m, addr, true).device == Ahci
    ensures Reaches(2, front, mid) && x !in mid.ahci.ci && Writes(mid, 1, Go(PortWrite({x}, {}, [])))
    ensures Reaches(2, steps, s) && front + [(1, Go(PortWrite({x}, {}, [])))] <= steps
    ensures s.threads == [IDLE, IDLE] && s.ahci == Controller({}, {}, [])
    ensures s.history.slots == mid.history.slots
  {
    hide Reaches, Step, Dispatch, Enabled;
    var reissue := PortWrite({x}, {}, []);
    front, mid := ResetUncoversSlot(m, addr, x);
    front, mid := BeginWrite(2, front, mid, 1, m, addr);
    steps, s := FinishWrite(2, front, mid, 1, reissue);
    steps, s := ReturnAtOnce(2, steps, s, 1);
    steps, s := RunPending(2, steps, s, 0, 0);
  }

  /** In general: a command issued in a slot in flight is never queued, and the completion of the
      older request clears its PORT_CI bit. */
  lemma ReissueInFlightIsLost(s: State, e: Effect, t: nat, x: Slot)
    requires Inv(s) && x in s.ahci.deferred && e.PortWrite? && x in e.issued && Possible(s.ahci, e)
    requires t < |s.threads| && s.threads[t].pending != []
    requires s.threads[t].pending[0] < |s.history.slots| && s.history.slots[s.threads[t].pending[0]] == x
    ensures var s' := CompleteOne(WriteTo(s, e), t);
            x !in s'.ahci.ci && !exists id :: Outstanding(s', id) && s'.history.slots[id] == x
  {
    var s1 := WriteTo(s, e);
    var s' := CompleteOne(s1, t);
    QueueingKeepsSlots(s, e);
    var done := s.threads[t].pending[0];
    assert s1.history.slots[done] == x;
    assert ListOk(s, s.threads[t].pending, With(t));
    assert Outstanding(s1, done);
    forall id | Outstanding(s', id) ensures s'.history.slots[id] != x {
      assert Outstanding(s1, id) && id != done;
    }
  }
}
