// The sections that share interrupt line 11, taken apart into single reads and writes. AHCI_LOCK
// keeps two AHCI sections apart and MMIO_LOCK two network sections, but nothing keeps one from
// running into the other.
module IrqOverlap {
  import opened IrqLine

  /** Where an AHCI section is. It raises the line before it sets its flag, toggles a stuck line, and
      lowers in three steps: clear the flag, look at the other flag, write the line. */
  datatype AhciPc =
    | AhciIdle | AhciRaiseLine | AhciSetFlag | AhciToggleLow | AhciToggleHigh
    | AhciClearFlag | AhciLook | AhciLower

  /** Where a network section is. It sets its flag before it raises the line. */
  datatype NetPc = NetIdle | NetSetFlag | NetRaiseLine | NetClearFlag | NetLook | NetLower

  datatype State = State(line: bool, ahci: bool, net: bool, ahciPc: AhciPc, netPc: NetPc)

  const START := State(false, false, false, AhciIdle, NetIdle)

  /** A section begins with what it finds, or a section in progress takes its next step. */
  datatype Event = BeginAhci(poll: AhciFinding) | BeginNet(want: bool) | StepAhci | StepNet

  type AhciFinding = p: Poll | !p.NetPoll? witness AhciPoll(false, false, false)

  /** What an AHCI section does about the line: nothing if it gets no lock or if, in the general poll,
      the guest uses MSI; under MSI the poll after an exit drives the line as a backup, and does not
      toggle it. */
  predicate Drives(p: AhciFinding) { p.AhciTryPoll? ==> p.lockFree && !p.msi }
  predicate Toggles(p: AhciFinding) { p.stuck && !p.msi }

  const RAISE: AhciFinding := AhciPoll(true, false, false)
  const LOWER: AhciFinding := AhciPoll(false, false, false)

  predicate Enabled(s: State, e: Event) {
    match e
    case BeginAhci(_) => s.ahciPc.AhciIdle?
    case BeginNet(_) => s.netPc.NetIdle?
    case StepAhci => !s.ahciPc.AhciIdle?
    case StepNet => !s.netPc.NetIdle?
  }

  function Next(s: State, e: Event): State {
    match e
    case BeginAhci(p) =>
      if !Drives(p) then s
      else if p.want && !s.ahci then s.(ahciPc := AhciRaiseLine)
      else if p.want && Toggles(p) then s.(ahciPc := AhciToggleLow)
      else if !p.want && s.ahci then s.(ahciPc := AhciClearFlag)
      else s
    case BeginNet(want) =>
      if want && !s.net then s.(netPc := NetSetFlag)
      else if !want && s.net then s.(netPc := NetClearFlag)
      else s
    case StepAhci => (
      match s.ahciPc
      case AhciRaiseLine => s.(line := true, ahciPc := AhciSetFlag)
      case AhciSetFlag => s.(ahci := true, ahciPc := AhciIdle)
      case AhciToggleLow => s.(line := false, ahciPc := AhciToggleHigh)
      case AhciToggleHigh => s.(line := true, ahciPc := AhciIdle)
      case AhciClearFlag => s.(ahci := false, ahciPc := AhciLook)
      case AhciLook => s.(ahciPc := if s.net then AhciIdle else AhciLower)
      case AhciLower => s.(line := false, ahciPc := AhciIdle)
      case AhciIdle => s)
    case StepNet =>
      match s.netPc
      case NetSetFlag => s.(net := true, netPc := NetRaiseLine)
      case NetRaiseLine => s.(line := true, netPc := NetIdle)
      case NetClearFlag => s.(net := false, netPc := NetLook)
      case NetLook => s.(netPc := if s.ahci then NetIdle else NetLower)
      case NetLower => s.(line := false, netPc := NetIdle)
      case NetIdle => s
  }

  function After(s: State, es: seq<Event>): State {
    if es == [] then s else Next(After(s, es[..|es| - 1]), es[|es| - 1])
  }

  predicate IsRun(s: State, es: seq<Event>) {
    es == [] || (IsRun(s, es[..|es| - 1]) && Enabled(After(s, es[..|es| - 1]), es[|es| - 1]))
  }

  predicate Quiet(s: State) { s.ahciPc.AhciIdle? && s.netPc.NetIdle? }

  /** A quiet line says whether anyone wants it. */
  predicate LineRight(s: State) { s.line <==> s.ahci || s.net }

  // ---- The overlap

  /** AHCI has raised the line and its request stands, with the flag set or about to be. */
  predicate AhciUp(s: State) { s.ahci || s.ahciPc.AhciSetFlag? }

  predicate NetUp(s: State) { s.net && !s.netPc.NetRaiseLine? }

  /** The overlap: a section that saw the other flag clear writes the line low after the other section
      has raised it. */
  predicate LowersOver(s: State, e: Event) {
    (e.StepNet? && s.netPc.NetLower? && AhciUp(s)) || (e.StepAhci? && s.ahciPc.AhciLower? && NetUp(s))
  }

  /** A later write raises the line again, or the request is withdrawn. */
  predicate Settles(s: State, e: Event) {
    (e.StepNet? && (s.netPc.NetRaiseLine? || s.netPc.NetClearFlag?)) ||
    (e.StepAhci? && (s.ahciPc.AhciRaiseLine? || s.ahciPc.AhciToggleHigh? || s.ahciPc.AhciClearFlag?))
  }

  /** The run contains the overlap with nothing after it that settles it. */
  predicate Unsettled(s: State, es: seq<Event>) {
    es != [] &&
    var before, e := After(s, es[..|es| - 1]), es[|es| - 1];
    LowersOver(before, e) || (!Settles(before, e) && Unsettled(s, es[..|es| - 1]))
  }

  /** What holds between any two steps: an unsettled overlap means a low line that someone is owed,
      and without one a low line is owed to nobody and a high line is someone's or about to fall. */
  predicate Between(s: State, unsettled: bool) {
    (unsettled ==> !s.line && AhciUp(s) != NetUp(s)) &&
    (!s.line && !s.ahciPc.AhciToggleHigh? && !unsettled ==> !AhciUp(s) && !NetUp(s)) &&
    (s.line ==>
       AhciUp(s) || s.net || s.ahciPc in {AhciLook, AhciLower} || s.netPc in {NetLook, NetLower}) &&
    PcsFit(s)
  }

  /** Each section's own flag is what it left there. */
  predicate PcsFit(s: State) {
    (s.ahciPc in {AhciToggleLow, AhciToggleHigh, AhciClearFlag} ==> s.ahci) &&
    (s.ahciPc in {AhciRaiseLine, AhciSetFlag, AhciLook, AhciLower} ==> !s.ahci) &&
    (s.netPc in {NetRaiseLine, NetClearFlag} ==> s.net) &&
    (s.netPc in {NetSetFlag, NetLook, NetLower} ==> !s.net)
  }

  lemma StepKeepsBetween(s: State, e: Event, unsettled: bool)
    requires Between(s, unsettled) && Enabled(s, e)
    ensures Between(Next(s, e), LowersOver(s, e) || (!Settles(s, e) && unsettled))
  {}

  lemma {:induction false} RunKeepsBetween(s: State, es: seq<Event>)
    requires Quiet(s) && LineRight(s) && IsRun(s, es)
    ensures Between(After(s, es), Unsettled(s, es))
  {
    if es != [] {
      var front := es[..|es| - 1];
      RunKeepsBetween(s, front);
      StepKeepsBetween(After(s, front), es[|es| - 1], Unsettled(s, front));
    }
  }

  /** Any number of sections interleaved in any way, from a quiet line that is right to a quiet state:
      the line ends wrong if and only if a section lowered it over the other's raise and nothing has
      settled that since. It is then low though someone wants it; it never ends high for nobody. */
  lemma WrongExactly(s: State, es: seq<Event>)
    requires Quiet(s) && LineRight(s) && IsRun(s, es) && Quiet(After(s, es))
    ensures !LineRight(After(s, es)) <==> Unsettled(s, es)
    ensures After(s, es).line ==> After(s, es).ahci || After(s, es).net
  {
    RunKeepsBetween(s, es);
  }

  // ---- One section of each kind

  /** One section of each kind has begun, in either order. */
  predicate OnePair(es: seq<Event>) {
    Begins(es, true) <= 1 && Begins(es, false) <= 1
  }

  function Begins(es: seq<Event>, ahci: bool): nat {
    if es == [] then 0
    else
      var e := es[|es| - 1];
      Begins(es[..|es| - 1], ahci) + (if (ahci && e.BeginAhci?) || (!ahci && e.BeginNet?) then 1 else 0)
  }

  /** The overlap happens somewhere in the run. */
  predicate Overlaps(s: State, es: seq<Event>) {
    es != [] && (LowersOver(After(s, es[..|es| - 1]), es[|es| - 1]) || Overlaps(s, es[..|es| - 1]))
  }

  /** With at most one section of each kind begun, `a` and `n` say which: what the flags and positions
      can be, and that an overlap leaves at most the store of the AHCI flag to be done. */
  predicate PairState(s0: State, s: State, a: bool, n: bool, overlapped: bool) {
    (!a ==> s.ahciPc.AhciIdle? && s.ahci == s0.ahci) &&
    (!n ==> s.netPc.NetIdle? && s.net == s0.net) &&
    (s.ahciPc in {AhciRaiseLine, AhciSetFlag} ==> !s0.ahci) &&
    (s.ahciPc in {AhciClearFlag, AhciLook, AhciLower, AhciToggleLow, AhciToggleHigh} ==> s0.ahci) &&
    (s.netPc in {NetSetFlag, NetRaiseLine} ==> !s0.net) &&
    (s.netPc in {NetClearFlag, NetLook, NetLower} ==> s0.net) &&
    (s.netPc.NetLower? && s0.ahci ==> !s.ahci) && (s.ahciPc.AhciLower? && s0.net ==> !s.net) &&
    (overlapped ==> a && n && s.netPc.NetIdle? && (s.ahciPc.AhciIdle? || s.ahciPc.AhciSetFlag?))
  }

  lemma PairStep(s0: State, s: State, a: bool, n: bool, overlapped: bool, e: Event)
    requires PairState(s0, s, a, n, overlapped) && PcsFit(s) && Enabled(s, e)
    requires (e.BeginAhci? ==> !a) && (e.BeginNet? ==> !n)
    ensures PairState(s0, Next(s, e), a || e.BeginAhci?, n || e.BeginNet?, overlapped || LowersOver(s, e))
    ensures overlapped ==> !Settles(s, e)
  {}

  lemma {:induction false} PairKeeps(s0: State, es: seq<Event>)
    requires Quiet(s0) && LineRight(s0) && IsRun(s0, es) && OnePair(es)
    ensures PairState(s0, After(s0, es), Begins(es, true) == 1, Begins(es, false) == 1, Overlaps(s0, es))
    ensures Overlaps(s0, es) <==> Unsettled(s0, es)
  {
    hide PairState, Enabled, LowersOver, Settles, Next, PcsFit;
    if es == [] {
      assert PairState(s0, s0, false, false, false) by { StartPair(s0); }
    } else {
      var front, e := es[..|es| - 1], es[|es| - 1];
      var s := After(s0, front);
      PairKeeps(s0, front);
      RunKeepsBetween(s0, front);
      PairStep(s0, s, Begins(front, true) == 1, Begins(front, false) == 1, Overlaps(s0, front), e);
    }
  }

  lemma StartPair(s0: State)
    requires Quiet(s0)
    ensures PairState(s0, s0, false, false, false)
  {}

  /** For one AHCI and one network section, interleaved in any way, the line ends wrong if and only if
      one of them lowers it over the other's raise. */
  lemma PairWrongExactly(s: State, es: seq<Event>)
    requires Quiet(s) && LineRight(s) && IsRun(s, es) && OnePair(es) && Quiet(After(s, es))
    ensures !LineRight(After(s, es)) <==> Overlaps(s, es)
  {
    PairKeeps(s, es);
    WrongExactly(s, es);
  }

  /** Both overlaps are possible. */
  lemma NetLowersOverAhci()
    ensures var s := State(true, false, true, AhciIdle, NetIdle);
            var es := [BeginNet(false), StepNet, StepNet, BeginAhci(RAISE), StepAhci, StepNet, StepAhci];
            Quiet(s) && LineRight(s) && IsRun(s, es) && Quiet(After(s, es)) && !LineRight(After(s, es))
  {
    var s := State(true, false, true, AhciIdle, NetIdle);
    Unroll7(s, BeginNet(false), StepNet, StepNet, BeginAhci(RAISE), StepAhci, StepNet, StepAhci);
  }

  lemma AhciLowersOverNet()
    ensures var s := State(true, true, false, AhciIdle, NetIdle);
            var es := [BeginAhci(LOWER), StepAhci, StepAhci, BeginNet(true), StepNet, StepNet, StepAhci];
            Quiet(s) && LineRight(s) && IsRun(s, es) && Quiet(After(s, es)) && !LineRight(After(s, es))
  {
    var s := State(true, true, false, AhciIdle, NetIdle);
    Unroll7(s, BeginAhci(LOWER), StepAhci, StepAhci, BeginNet(true), StepNet, StepNet, StepAhci);
  }

  lemma Unroll7(s: State, a: Event, b: Event, c: Event, d: Event, e: Event, f: Event, g: Event)
    ensures var es := [a, b, c, d, e, f, g];
            var s3 := Next(Next(Next(s, a), b), c);
            var s6 := Next(Next(Next(s3, d), e), f);
            After(s, es) == Next(s6, g) &&
            (IsRun(s, es) <==>
             Enabled(s, a) && Enabled(Next(s, a), b) && Enabled(Next(Next(s, a), b), c) &&
             Enabled(s3, d) && Enabled(Next(s3, d), e) && Enabled(Next(Next(s3, d), e), f) && Enabled(s6, g))
  {
    hide Next, Enabled;
    var es := [a, b, c, d, e, f, g];
    assert es[..6] == [a, b, c, d, e, f] && es[..6][..5] == [a, b, c, d, e] && [a, b, c, d, e][..4] == [a, b, c, d];
    assert [a, b, c, d][..3] == [a, b, c] && [a, b, c][..2] == [a, b] && [a, b][..1] == [a] && [a][..0] == [];
    assert After(s, [a]) == Next(s, a) && (IsRun(s, [a]) <==> Enabled(s, a));
    assert After(s, [a, b]) == Next(Next(s, a), b);
    assert After(s, [a, b, c]) == Next(Next(Next(s, a), b), c);
    assert After(s, [a, b, c, d]) == Next(Next(Next(Next(s, a), b), c), d);
    assert IsRun(s, [a, b]) <==> Enabled(s, a) && Enabled(Next(s, a), b);
    assert IsRun(s, [a, b, c]) <==> IsRun(s, [a, b]) && Enabled(After(s, [a, b]), c);
    assert IsRun(s, [a, b, c, d]) <==> IsRun(s, [a, b, c]) && Enabled(After(s, [a, b, c]), d);
    assert After(s, [a, b, c, d, e]) == Next(After(s, [a, b, c, d]), e);
    assert IsRun(s, [a, b, c, d, e]) <==> IsRun(s, [a, b, c, d]) && Enabled(After(s, [a, b, c, d]), e);
    assert After(s, [a, b, c, d, e, f]) == Next(After(s, [a, b, c, d, e]), f);
    assert IsRun(s, [a, b, c, d, e, f]) <==> IsRun(s, [a, b, c, d, e]) && Enabled(After(s, [a, b, c, d, e]), f);
  }

  // ---- The atomic sections

  function StateOf(i: Irq): State { State(i.High(), i.ahci, i.net, AhciIdle, NetIdle) }

  function RunAhci(s: State, fuel: nat): State
    decreases fuel
  {
    if fuel == 0 || s.ahciPc.AhciIdle? then s else RunAhci(Next(s, StepAhci), fuel - 1)
  }

  function RunNet(s: State, fuel: nat): State
    decreases fuel
  {
    if fuel == 0 || s.netPc.NetIdle? then s else RunNet(Next(s, StepNet), fuel - 1)
  }

  /** Run without interruption, the sections do to line and flags what the atomic polls do. */
  lemma UninterruptedIsAtomic(i: Irq, p: AhciFinding, want: bool)
    requires !i.e1000
    ensures RunAhci(Next(StateOf(i), BeginAhci(p)), 3) == StateOf(i.Next(p))
    ensures RunNet(Next(StateOf(i), BeginNet(want)), 3) == StateOf(i.Next(NetPoll(want)))
  {
    AhciAlone(i, p);
    NetAlone(i, want);
  }

  lemma AhciAlone(i: Irq, p: AhciFinding)
    requires !i.e1000
    ensures RunAhci(Next(StateOf(i), BeginAhci(p)), 3) == StateOf(i.Next(p))
  {
    var a := Next(StateOf(i), BeginAhci(p));
    RunAhciThree(a);
  }

  lemma RunAhciThree(s: State)
    ensures var s1 := Next(s, StepAhci);
            RunAhci(s, 3) ==
            if s.ahciPc.AhciIdle? then s
            else if s1.ahciPc.AhciIdle? then s1
            else if Next(s1, StepAhci).ahciPc.AhciIdle? then Next(s1, StepAhci)
            else Next(Next(s1, StepAhci), StepAhci)
  {
    hide Next;
    var s1 := Next(s, StepAhci);
    assert RunAhci(Next(s1, StepAhci), 1) ==
           if Next(s1, StepAhci).ahciPc.AhciIdle? then Next(s1, StepAhci)
           else RunAhci(Next(Next(s1, StepAhci), StepAhci), 0);
  }

  lemma NetAlone(i: Irq, want: bool)
    requires !i.e1000
    ensures RunNet(Next(StateOf(i), BeginNet(want)), 3) == StateOf(i.Next(NetPoll(want)))
  {
    var n := Next(StateOf(i), BeginNet(want));
    var n1 := Next(n, StepNet);
    assert RunNet(n1, 2) == if n1.netPc.NetIdle? then n1 else RunNet(Next(n1, StepNet), 1);
    assert RunNet(Next(n1, StepNet), 1) ==
           if Next(n1, StepNet).netPc.NetIdle? then Next(n1, StepNet) else RunNet(Next(Next(n1, StepNet), StepNet), 0);
  }
}
