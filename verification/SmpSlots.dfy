// When a command slot reads as busy: PORT_CI over whole runs, and what one port write can do.
module SmpSlots {
  import opened MmioRouter
  import opened SmpDispatch
  import opened SmpSafety
  import opened SmpReset

  // ---- PORT_CI over a run

  /** A port write issues a command in the slot and leaves it unfinished. */
  ghost predicate Issues(p: State, t: nat, c: Choice, x: Slot) {
    Writes(p, t, c) && c.effect.PortWrite? && x in c.effect.issued && x !in c.effect.finished
  }

  /** The thread completes the oldest request it has, which is for the slot. */
  ghost predicate Completes(p: State, t: nat, c: Choice, x: Slot) {
    t < |p.threads| && c.Go? && p.threads[t].todo.Do? && p.threads[t].todo.action == CompleteAll &&
    p.threads[t].pending != [] && p.threads[t].pending[0] < |p.history.slots| &&
    p.history.slots[p.threads[t].pending[0]] == x
  }

  /** A reset, a port write that finishes the command at once, or the completion of a deferred one. */
  ghost predicate Frees(p: State, t: nat, c: Choice, x: Slot) {
    (Writes(p, t, c) && (c.effect.HbaReset? || x in c.effect.finished)) || Completes(p, t, c, x)
  }

  /** The last thing that happened to the slot is that a command was issued in it. */
  ghost predicate LastIssued(n: nat, steps: seq<(nat, Choice)>, x: Slot)
    decreases |steps|
  {
    steps != [] &&
    var front := steps[..|steps| - 1];
    var (t, c) := steps[|steps| - 1];
    exists p: State ::
      Reaches(n, front, p) && (Issues(p, t, c, x) || (LastIssued(n, front, x) && !Frees(p, t, c, x)))
  }

  lemma StepBusyExactly(s: State, t: nat, c: Choice, x: Slot)
    requires Enabled(s, t, c)
    ensures x in Step(s, t, c).ahci.ci <==> Issues(s, t, c, x) || (x in s.ahci.ci && !Frees(s, t, c, x))
  {}

  /** In any run a slot reads as busy if and only if the last thing that happened to it is that a command
      was issued in it, and neither a reset, nor the write itself, nor a completion freed it since. */
  lemma {:induction false} BusyExactly(n: nat, steps: seq<(nat, Choice)>, s: State, x: Slot)
    requires Reaches(n, steps, s)
    ensures x in s.ahci.ci <==> LastIssued(n, steps, x)
    decreases |steps|
  {
    hide Step, Enabled, Issues, Frees;
    if steps == [] {
      StartsFree(n);
    } else {
      var front := steps[..|steps| - 1];
      var (t, c) := steps[|steps| - 1];
      var p: State :| Reaches(n, front, p) && Enabled(p, t, c) && s == Step(p, t, c);
      BusyExactly(n, front, p, x);
      StepBusyExactly(p, t, c, x);
      forall q: State | Reaches(n, front, q) ensures q == p { RunIsUnique(n, front, q, p); }
    }
  }

  lemma StartsFree(n: nat)
    ensures Initial(n).ahci.ci == {}
  {}

  // ---- Every port write

  /** A run in which no lock is held goes on with any port write of an idle thread: it may issue any commands,
      finish any of those issued that are not in flight and defer any others of them; what it defers is what
      its thread then has to execute, in that order. */
  lemma AnyWriteGoesOn(
      n: nat, steps: seq<(nat, Choice)>, s: State, t: nat, m: Machine, addr: nat,
      issued: set<Slot>, finished: set<Slot>, deferred: seq<Slot>)
    returns (steps': seq<(nat, Choice)>, s': State)
    requires Dispatch(m, addr, true).device == Ahci
    requires Reaches(n, steps, s) && t < |s.threads| && s.threads[t] == IDLE && s.locked == {}
    requires finished <= s.ahci.ci + issued && finished !! s.ahci.deferred
    requires forall i | 0 <= i < |deferred| ::
               deferred[i] in s.ahci.ci + issued && deferred[i] !in s.ahci.deferred && deferred[i] !in finished
    requires forall i, j | 0 <= i < j < |deferred| :: deferred[i] != deferred[j]
    ensures Reaches(n, steps', s') && steps <= steps' && s'.locked == {} && |s'.threads| == |s.threads|
    ensures s'.ahci.ci == s.ahci.ci + issued - finished && s'.ahci.queue == []
    ensures forall x :: x in s'.ahci.deferred <==> x in s.ahci.deferred || x in deferred
    ensures s'.history.slots == s.history.slots + deferred
    ensures s'.threads[t].pending == seq(|deferred|, i => |s.history.slots| + i)
    ensures forall u | 0 <= u < |s.threads| && u != t :: s'.threads[u] == s.threads[u]
  {
    hide Reaches, Dispatch, Enabled, Step;
    var e := PortWrite(issued, finished, deferred);
    MutualExclusion(n, steps, s);
    steps', s' := BeginWrite(n, steps, s, t, m, addr);
    assert Possible(s'.ahci, e);
    var begun := s';
    steps', s' := FinishWrite(n, steps', s', t, e);
    var w := WriteTo(begun, e);
    assert w.ahci.queue == [] + seq(|deferred|, i => |s.history.slots| + i);
  }
}
