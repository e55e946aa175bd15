// Interrupt line 11, shared level-triggered by the AHCI controller and the VirtIO network
// device. Each sharer remembers in a flag whether it asserts the line, and lowers the line
// only when no other flag is set.
module IrqLine {

  /** What one poll section finds: whether the device wants the line, whether the controller
      had to be un-stuck, whether the guest enabled MSI, and whether AHCI_LOCK was free. */
  datatype Poll =
    | AhciTryPoll(lockFree: bool, want: bool, stuck: bool, msi: bool)  // in corevm_poll_irqs
    | AhciPoll(want: bool, stuck: bool, msi: bool)                     // corevm_ahci_poll_irq
    | NetPoll(want: bool)                                              // in corevm_poll_irqs

  /** `levels` lists the arguments of every set_irq_line(11, _) call, `messages` counts MSIs. */
  datatype Irq = Irq(levels: seq<bool>, ahci: bool, net: bool, e1000: bool, messages: nat)
  {
    /** The level of the line: whatever was set last. */
    predicate High() { levels != [] && levels[|levels| - 1] }

    function Set(level: bool): Irq { this.(levels := levels + [level]) }

    function LowerAhci(): Irq {
      var cleared := this.(ahci := false);
      if !e1000 && !net then cleared.Set(false) else cleared
    }

    function Legacy(want: bool, stuck: bool): Irq {
      if want && !ahci then Set(true).(ahci := true)
      else if want && stuck then Set(false).Set(true)
      else if !want && ahci then LowerAhci()
      else this
    }

    function Next(p: Poll): Irq {
      match p
      case AhciTryPoll(lockFree, want, stuck, msi) =>
        if !lockFree then this
        else if msi then (if want then this.(messages := messages + 1) else this)
        else Legacy(want, stuck)
      case AhciPoll(want, stuck, msi) =>
        if !msi then Legacy(want, stuck)
        else if want then
          var sent := this.(messages := messages + 1);
          if ahci then sent else sent.Set(true).(ahci := true)
        else if ahci then LowerAhci()
        else this
      case NetPoll(want) =>
        if want && !net then this.(net := true).Set(true)
        else if !want && net then
          var cleared := this.(net := false);
          if !ahci && !e1000 then cleared.Set(false) else cleared
        else this
    }
  }

  const INITIAL: Irq := Irq([], false, false, false, 0)

  function Run(polls: seq<Poll>): Irq {
    if polls == [] then INITIAL else Run(polls[..|polls| - 1]).Next(polls[|polls| - 1])
  }

  /** The fields of the VM that the poll sections change in place. */
  class SharedLine {
    var levels: seq<bool>
    var ahciAsserted: bool
    var netAsserted: bool
    var e1000Asserted: bool
    var messages: nat

    function State(): Irq
      reads this
    {
      Irq(levels, ahciAsserted, netAsserted, e1000Asserted, messages)
    }

    constructor ()
      ensures State() == INITIAL
    {
      levels, messages := [], 0;
      ahciAsserted, netAsserted, e1000Asserted := false, false, false;
    }

    method SetIrqLine(level: bool)
      modifies this`levels
      ensures levels == old(levels) + [level]
    {
      levels := levels + [level];
    }

    /** The AHCI part of corevm_poll_irqs. */
    method TryPollAhci(lockFree: bool, want: bool, stuck: bool, msi: bool)
      modifies this
      ensures State() == old(State()).Next(AhciTryPoll(lockFree, want, stuck, msi))
    {
      if lockFree {
        if msi {
          if want {
            messages := messages + 1;
          }
        } else {
          if want && !ahciAsserted {
            SetIrqLine(true);
            ahciAsserted := true;
          } else if want && stuck && ahciAsserted {
            SetIrqLine(false);
            SetIrqLine(true);
          } else if !want && ahciAsserted {
            ahciAsserted := false;
            if !e1000Asserted && !netAsserted {
              SetIrqLine(false);
            }
          }
        }
      }
    }

    /** corevm_ahci_poll_irq: under MSI the line is asserted as a backup. */
    method PollAhci(want: bool, stuck: bool, msi: bool)
      modifies this
      ensures State() == old(State()).Next(AhciPoll(want, stuck, msi))
    {
      if msi {
        if want {
          messages := messages + 1;
          if !ahciAsserted {
            SetIrqLine(true);
            ahciAsserted := true;
          }
        } else if ahciAsserted {
          ahciAsserted := false;
          if !e1000Asserted && !netAsserted {
            SetIrqLine(false);
          }
        }
      } else {
        if want && !ahciAsserted {
          SetIrqLine(true);
          ahciAsserted := true;
        } else if want && stuck && ahciAsserted {
          SetIrqLine(false);
          SetIrqLine(true);
        } else if !want && ahciAsserted {
          ahciAsserted := false;
          if !e1000Asserted && !netAsserted {
            SetIrqLine(false);
          }
        }
      }
    }

    /** The VirtIO-Net part of corevm_poll_irqs. */
    method PollNet(want: bool)
      modifies this
      ensures State() == old(State()).Next(NetPoll(want))
    {
      if want && !netAsserted {
        netAsserted := true;
        SetIrqLine(true);
      } else if !want && netAsserted {
        netAsserted := false;
        if !ahciAsserted && !e1000Asserted {
          SetIrqLine(false);
        }
      }
    }
  }

  // ---- What the sharers see

  /** A poll that looks at the AHCI controller and acts on the line. */
  predicate Decides(p: Poll) {
    match p
    case AhciTryPoll(lockFree, _, _, msi) => lockFree && !msi
    case AhciPoll(_, _, _) => true
    case NetPoll(_) => false
  }

  /** What the AHCI controller wanted when a poll last acted on it. */
  function LastAhci(polls: seq<Poll>): bool {
    if polls == [] then false
    else
      var p := polls[|polls| - 1];
      if Decides(p) then p.want else LastAhci(polls[..|polls| - 1])
  }

  function LastNet(polls: seq<Poll>): bool {
    if polls == [] then false
    else
      var p := polls[|polls| - 1];
      if p.NetPoll? then p.want else LastNet(polls[..|polls| - 1])
  }

  /** After any run the line is the wired-or of what each sharer last wanted: no sharer's
      deassertion drops the other's request, and no request outlives its sharers. */
  lemma {:induction false} LineIsWiredOr(polls: seq<Poll>)
    ensures Run(polls).High() <==> LastAhci(polls) || LastNet(polls)
    ensures Run(polls).ahci == LastAhci(polls) && Run(polls).net == LastNet(polls) && !Run(polls).e1000
  {
    if polls != [] {
      LineIsWiredOr(polls[..|polls| - 1]);
      NextKeepsWiredOr(Run(polls[..|polls| - 1]), polls[|polls| - 1]);
    }
  }

  lemma NextKeepsWiredOr(s: Irq, p: Poll)
    requires !s.e1000 && (s.High() <==> s.ahci || s.net)
    ensures var s' := s.Next(p);
            && !s'.e1000 && (s'.High() <==> s'.ahci || s'.net)
            && s'.ahci == (if Decides(p) then p.want else s.ahci)
            && s'.net == (if p.NetPoll? then p.want else s.net)
  {
  }

  /** A legacy poll that finds the controller stuck on a line already high gives the interrupt
      controller a fresh rising edge; otherwise a poll never touches a line it agrees with. */
  lemma StuckGetsEdge(polls: seq<Poll>, p: Poll)
    requires Decides(p) && p.want && LastAhci(polls)
    ensures Run(polls + [p]).levels ==
            Run(polls).levels + (if p.stuck && !p.msi then [false, true] else [])
    ensures Run(polls + [p]).High()
  {
    LineIsWiredOr(polls);
    LineIsWiredOr(polls + [p]);
    assert (polls + [p])[..|polls|] == polls;
    assert Run(polls + [p]) == Run(polls).Next(p);
    assert Run(polls).levels + [false] + [true] == Run(polls).levels + [false, true];
  }

  /** A poll that gets to look at the AHCI controller and finds that it wants the interrupt. */
  predicate Wants(p: Poll) {
    match p
    case AhciTryPoll(lockFree, want, _, _) => lockFree && want
    case AhciPoll(want, _, _) => want
    case NetPoll(_) => false
  }

  /** Polls that find the interrupt wanted by a guest that uses MSI. */
  function Signals(polls: seq<Poll>): nat {
    if polls == [] then 0 else (if Wants(polls[0]) && polls[0].msi then 1 else 0) + Signals(polls[1..])
  }

  lemma {:induction false} SignalsAppend(polls: seq<Poll>, p: Poll)
    ensures Signals(polls + [p]) == Signals(polls) + if Wants(p) && p.msi then 1 else 0
  {
    if polls == [] {
      assert [p][1..] == [];
    } else {
      SignalsAppend(polls[1..], p);
      assert (polls + [p])[0] == polls[0] && (polls + [p])[1..] == polls[1..] + [p];
    }
  }

  /** Over any run a message is sent for each such poll, and no other. */
  lemma {:induction false} MessagesCounted(polls: seq<Poll>)
    ensures Run(polls).messages == Signals(polls)
  {
    if polls != [] {
      var front, p := polls[..|polls| - 1], polls[|polls| - 1];
      MessagesCounted(front);
      SignalsAppend(front, p);
      assert polls == front + [p];
      NextKeepsMessages(Run(front), p);
    }
  }

  lemma NextKeepsMessages(s: Irq, p: Poll)
    ensures s.Next(p).messages == s.messages + if Wants(p) && p.msi then 1 else 0
  {}

  /** No wanted interrupt goes undelivered: each such poll sends a message or leaves the line high. */
  lemma WantedIsDelivered(polls: seq<Poll>, p: Poll)
    requires Wants(p)
    ensures Run(polls + [p]).messages == Run(polls).messages + 1 || Run(polls + [p]).High()
    ensures !p.msi || p.AhciPoll? ==> Run(polls + [p]).High()
  {
    assert (polls + [p])[..|polls|] == polls;
    NextKeepsMessages(Run(polls), p);
    LineIsWiredOr(polls + [p]);
  }

  /** What a poll does to the line when the sharers last wanted `ahci` and `net`. */
  function Edges(ahci: bool, net: bool, p: Poll): seq<bool> {
    if p.NetPoll? then
      if p.want then (if net then [] else [true])
      else if net && !ahci then [false] else []
    else if !Decides(p) then []
    else if p.want then
      if !ahci then [true] else if p.stuck && !p.msi then [false, true] else []
    else if ahci && !net then [false] else []
  }

  /** Over any run the line is driven just so often: every change is one of those. */
  lemma EdgesExactly(polls: seq<Poll>, p: Poll)
    ensures Run(polls + [p]).levels == Run(polls).levels + Edges(LastAhci(polls), LastNet(polls), p)
  {
    LineIsWiredOr(polls);
    assert (polls + [p])[..|polls|] == polls;
    assert Run(polls).levels + [] == Run(polls).levels;
    assert Run(polls).levels + [false] + [true] == Run(polls).levels + [false, true];
  }

  /** A deciding AHCI poll and a network poll in either order settle the line completely. */
  lemma TwoPollsSettle(polls: seq<Poll>, p: Poll, want: bool)
    requires Decides(p)
    ensures Run(polls + [p, NetPoll(want)]).High() <==> p.want || want
    ensures Run(polls + [NetPoll(want), p]).High() <==> p.want || want
  {
    LineIsWiredOr(polls + [p, NetPoll(want)]);
    LineIsWiredOr(polls + [NetPoll(want), p]);
    assert (polls + [p, NetPoll(want)])[..|polls| + 1] == polls + [p];
    assert (polls + [NetPoll(want), p])[..|polls| + 1] == polls + [NetPoll(want)];
    assert (polls + [p])[..|polls|] == polls && (polls + [NetPoll(want)])[..|polls|] == polls;
  }

  // ---- Why the sections must not overlap

  /** A network section that lowers the line between the two stores of an AHCI section that
      raises it (line first, flag second): the flag ends up set with the line low, and no later
      poll that still wants the line, finds nothing stuck and sees no network request raises it. */
  lemma {:induction false} OverlapLosesInterrupt(before: Irq, later: seq<Poll>)
    requires before.net && !before.ahci && !before.e1000
    requires forall p | p in later ::
               (p.NetPoll? ==> !p.want) && (!p.NetPoll? ==> p.want && !p.stuck && !p.msi)
    ensures var raised := before.Set(true);
            var lowered := raised.Next(NetPoll(false));
            var after := lowered.(ahci := true);
            after.ahci && !after.High() && After(after, later) == after
  {
    if later != [] {
      OverlapLosesInterrupt(before, later[..|later| - 1]);
    }
  }

  function After(s: Irq, polls: seq<Poll>): Irq {
    if polls == [] then s else After(s, polls[..|polls| - 1]).Next(polls[|polls| - 1])
  }
}
