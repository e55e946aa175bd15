// The global table of virtual machines: handles are slot numbers plus one, destroyed slots are
// reused before the table grows.
module VmRegistry {
  import opened Wrappers

  /** `next` is the value NEXT_HANDLE hands out next. */
  datatype Table<Vm> = Table(slots: seq<Option<Vm>>, next: nat)

  function FirstFree<Vm>(slots: seq<Option<Vm>>): (i: nat)
    ensures i <= |slots|
    ensures forall j | 0 <= j < i :: slots[j].Some?
    ensures i < |slots| ==> slots[i].None?
  {
    if slots == [] || slots[0].None? then 0 else 1 + FirstFree(slots[1..])
  }

  /** Installing a VM: the new table and the handle. */
  function Install<Vm>(t: Table<Vm>, vm: Vm): (Table<Vm>, nat)
    requires |t.slots| == t.next - 1
  {
    var i := FirstFree(t.slots);
    if i < |t.slots| then (t.(slots := t.slots[i := Some(vm)]), i + 1)
    else (Table(t.slots + [Some(vm)], t.next + 1), t.next)
  }

  function Remove<Vm>(t: Table<Vm>, handle: nat): Table<Vm> {
    if 1 <= handle <= |t.slots| then t.(slots := t.slots[handle - 1 := None]) else t
  }

  function Lookup<Vm>(t: Table<Vm>, handle: nat): Option<Vm> {
    if 1 <= handle <= |t.slots| then t.slots[handle - 1] else None
  }

  /** The table as the process keeps it: a vector, a counter and the last error. */
  class Registry<Vm(0)> {
    var slots: seq<Option<Vm>>
    var nextHandle: nat
    var lastError: Option<string>

    function Contents(): Table<Vm>
      reads this
    {
      Table(slots, nextHandle)
    }

    predicate Valid()
      reads this
    {
      |slots| == nextHandle - 1
    }

    constructor ()
      ensures Valid() && Contents() == Table([], 1) && lastError == None
    {
      slots, nextHandle, lastError := [], 1, None;
    }

    /** `vm` is the outcome of building the machine. Returns 0 on failure. */
    method Create(vm: Result<Vm, string>) returns (handle: nat)
      requires Valid()
      modifies this
      ensures Valid()
      ensures vm.Ok? ==> (Contents(), handle) == Install(old(Contents()), vm.value) && lastError == None
      ensures vm.Err? ==> Contents() == old(Contents()) && handle == 0 && lastError == Some(vm.error)
    {
      lastError := None;
      match vm
      case Err(message) =>
        lastError := Some(message);
        handle := 0;
      case Ok(machine) =>
        var i := 0;
        while i < |slots| && slots[i].Some?
          invariant 0 <= i <= FirstFree(slots)
        {
          i := i + 1;
        }
        assert i == FirstFree(slots);
        if i < |slots| {
          slots := slots[i := Some(machine)];
          handle := i + 1;
        } else {
          handle := nextHandle;
          nextHandle := nextHandle + 1;
          var idx := handle - 1;
          ghost var before := slots;
          while |slots| <= idx
            invariant |before| <= |slots| <= idx + 1
            invariant slots[..|before|] == before && nextHandle == handle + 1 && lastError == None
          {
            slots := slots + [None];
          }
          slots := slots[idx := Some(machine)];
          assert slots == before + [Some(machine)];
        }
    }

    method Destroy(handle: nat)
      requires Valid()
      modifies this
      ensures Valid() && lastError == old(lastError)
      ensures Contents() == Remove(old(Contents()), handle)
    {
      if handle == 0 {
        return;
      }
      var idx := handle - 1;
      if idx < |slots| {
        slots := slots[idx := None];
      }
    }

    method GetVm(handle: nat) returns (vm: Option<Vm>)
      ensures vm == Lookup(Contents(), handle)
    {
      if handle == 0 {
        return None;
      }
      var idx := handle - 1;
      vm := if idx < |slots| then slots[idx] else None;
    }
  }

  // ---- Runs

  datatype Op<Vm> = Create(vm: Vm) | CreateFails | Destroy(handle: nat)

  function Run<Vm>(ops: seq<Op<Vm>>): (t: Table<Vm>)
    ensures |t.slots| == t.next - 1
  {
    if ops == [] then Table([], 1)
    else
      var t := Run(ops[..|ops| - 1]);
      match ops[|ops| - 1]
      case Create(vm) => Install(t, vm).0
      case CreateFails => t
      case Destroy(handle) => Remove(t, handle)
  }

  /** The handles whose slot holds a VM. */
  function Live<Vm>(t: Table<Vm>): (live: set<nat>)
    ensures forall h: nat :: h in live <==> Lookup(t, h).Some?
  {
    set h | h in UpTo(|t.slots|) && t.slots[h - 1].Some?
  }

  /** The largest number of VMs that were ever alive at the same time. */
  function Peak<Vm>(ops: seq<Op<Vm>>): nat {
    if ops == [] then 0
    else
      var before, now := Peak(ops[..|ops| - 1]), |Live(Run(ops))|;
      if now > before then now else before
  }

  function UpTo(n: nat): (s: set<nat>)
    ensures forall h :: h in s <==> 1 <= h <= n
    ensures |s| == n
  {
    if n == 0 then {} else UpTo(n - 1) + {n}
  }

  lemma SubsetSize(a: set<nat>, b: set<nat>)
    requires a <= b
    ensures |a| <= |b|
  {
    assert b == a + (b - a);
  }

  lemma InstallLookup<Vm>(t: Table<Vm>, vm: Vm)
    requires |t.slots| == t.next - 1
    ensures var (t', h) := Install(t, vm);
            && h != 0 && Lookup(t, h).None? && Lookup(t', h) == Some(vm)
            && forall g: nat :: g != h ==> Lookup(t', g) == Lookup(t, g)
  {
  }

  lemma RemoveLookup<Vm>(t: Table<Vm>, handle: nat, h: nat)
    ensures Lookup(Remove(t, handle), h) == if h == handle then None else Lookup(t, h)
  {
  }

  lemma InstallFacts<Vm>(t: Table<Vm>, vm: Vm)
    requires |t.slots| == t.next - 1
    ensures var (t', h) := Install(t, vm);
            && h !in Live(t) && Live(t') == Live(t) + {h}
            && |t'.slots| == (if Live(t) == UpTo(|t.slots|) then |t.slots| + 1 else |t.slots|)
  {
    var i := FirstFree(t.slots);
    if i < |t.slots| {
      ReuseLive(t, i, vm);
    } else {
      GrowLive(t, vm);
    }
  }

  lemma ReuseLive<Vm>(t: Table<Vm>, i: nat, vm: Vm)
    requires i < |t.slots| && t.slots[i].None?
    ensures Live(t.(slots := t.slots[i := Some(vm)])) == Live(t) + {i + 1}
    ensures i + 1 !in Live(t) && Live(t) != UpTo(|t.slots|)
  {
    hide Live, UpTo;
    var t' := t.(slots := t.slots[i := Some(vm)]);
    assert i + 1 in UpTo(|t.slots|);
    forall h: nat ensures h in Live(t') <==> h in Live(t) || h == i + 1 {
      assert Lookup(t', h) == if h == i + 1 then Some(vm) else Lookup(t, h);
    }
  }

  lemma GrowLive<Vm>(t: Table<Vm>, vm: Vm)
    requires forall j | 0 <= j < |t.slots| :: t.slots[j].Some?
    ensures Live(t.(slots := t.slots + [Some(vm)])) == Live(t) + {|t.slots| + 1}
    ensures Live(t) == UpTo(|t.slots|)
  {
  }

  /** The table's length is always NEXT_HANDLE - 1 and exactly the peak number of live VMs. */
  lemma {:induction false} LengthIsPeak<Vm>(ops: seq<Op<Vm>>)
    ensures |Run(ops).slots| == Run(ops).next - 1 == Peak(ops)
  {
    if ops != [] {
      var prefix, op := ops[..|ops| - 1], ops[|ops| - 1];
      var t := Run(prefix);
      LengthIsPeak(prefix);
      SubsetSize(Live(Run(ops)), UpTo(|Run(ops).slots|));
      if op.Create? {
        InstallFacts(t, op.vm);
      }
    }
  }

  /** The reference: which VM each handle stands for, with no slots and no counter. The handle
      of a creation is whatever the table chose. */
  function Installed<Vm>(ops: seq<Op<Vm>>): map<nat, Vm> {
    if ops == [] then map[]
    else
      var prefix := ops[..|ops| - 1];
      match ops[|ops| - 1]
      case Create(vm) => Installed(prefix)[Install(Run(prefix), vm).1 := vm]
      case CreateFails => Installed(prefix)
      case Destroy(handle) => Installed(prefix) - {handle}
  }

  /** After any run `get_vm` finds exactly the VM last installed under the handle and not
      destroyed since; handle 0 never names one. */
  lemma {:induction false} LookupFindsInstalled<Vm>(ops: seq<Op<Vm>>, h: nat)
    ensures Lookup(Run(ops), h) == (if h in Installed(ops) then Some(Installed(ops)[h]) else None)
    ensures 0 !in Installed(ops)
  {
    if ops != [] {
      var prefix, op := ops[..|ops| - 1], ops[|ops| - 1];
      LengthIsPeak(prefix);
      LookupFindsInstalled(prefix, h);
      match op
      case Create(vm) => InstallLookup(Run(prefix), vm);
      case CreateFails =>
      case Destroy(handle) => RemoveLookup(Run(prefix), handle, h);
    }
  }

  /** A creation never overwrites a live VM: its handle is new among the live ones. */
  lemma CreateKeepsOthers<Vm>(ops: seq<Op<Vm>>, vm: Vm)
    ensures var h := Install(Run(ops), vm).1;
            h != 0 && h !in Installed(ops) && Installed(ops + [Create(vm)]) == Installed(ops)[h := vm]
  {
    LengthIsPeak(ops);
    InstallLookup(Run(ops), vm);
    LookupFindsInstalled(ops, Install(Run(ops), vm).1);
    assert (ops + [Create(vm)])[..|ops|] == ops;
  }
}
