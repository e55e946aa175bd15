// The pending-interrupt bitmap: four 64-bit words that stand for a set of vectors.
module InterruptController {
  import opened Basics
  import opened Wrappers
  import opened Bits
  import opened Flags

  const IF: bv64 := 0x200

  type Vector = v: int | 0 <= v < 256

  predicate WellFormed(words: seq<u64>) { |words| == 4 }

  predicate IsPending(words: seq<u64>, v: Vector)
    requires WellFormed(words)
  {
    Bit(words[v / 64], v % 64)
  }

  /** The vectors whose bit is set. */
  ghost function Vectors(words: seq<u64>): set<Vector>
    requires WellFormed(words)
  {
    set v: Vector | 0 <= v < 256 && IsPending(words, v)
  }

  function SetBit(w: u64, bit: nat): u64
    requires bit < 64
  {
    Pow2Values();
    Pow2Below(bit, 64);
    OrBound(w, Pow2(bit), 64);
    Or(w, Pow2(bit))
  }

  function ClearBit(w: u64, bit: nat): u64
    requires bit < 64
  {
    Pow2Values();
    Pow2Below(bit, 64);
    And(w, Not(Pow2(bit)))
  }

  function Raise(words: seq<u64>, v: Vector): (words': seq<u64>)
    requires WellFormed(words)
    ensures WellFormed(words')
  {
    words[v / 64 := SetBit(words[v / 64], v % 64)]
  }

  function Clear(words: seq<u64>, v: Vector): (words': seq<u64>)
    requires WellFormed(words)
    ensures WellFormed(words')
  {
    words[v / 64 := ClearBit(words[v / 64], v % 64)]
  }

  lemma SetBitIs(w: u64, bit: nat, i: nat)
    requires bit < 64
    ensures Bit(SetBit(w, bit), i) <==> Bit(w, i) || i == bit
  {
    BitOr(w, Pow2(bit), i);
    BitPow2(bit, i);
  }

  lemma ClearBitIs(w: u64, bit: nat, i: nat)
    requires bit < 64 && i < 64
    ensures Bit(ClearBit(w, bit), i) <==> Bit(w, i) && i != bit
  {
    Pow2Values();
    Pow2Below(bit, 64);
    BitAnd(w, Not(Pow2(bit)), i);
    BitNot(Pow2(bit), i);
    BitPow2(bit, i);
  }

  /** Raising adds exactly one vector to the set, clearing removes exactly one. */
  lemma SetRefinement(words: seq<u64>, v: Vector)
    requires WellFormed(words)
    ensures Vectors(Raise(words, v)) == Vectors(words) + {v}
    ensures Vectors(Clear(words, v)) == Vectors(words) - {v}
  {
    hide Bit, SetBit, ClearBit;
    forall u: Vector
      ensures IsPending(Raise(words, v), u) <==> IsPending(words, u) || u == v
      ensures IsPending(Clear(words, v), u) <==> IsPending(words, u) && u != v
    {
      SetBitIs(words[v / 64], v % 64, u % 64);
      ClearBitIs(words[v / 64], v % 64, u % 64);
    }
  }

  ghost predicate IsLowest(r: Option<Vector>, s: set<Vector>) {
    match r
    case None => s == {}
    case Some(v) => v in s && forall u | u in s :: v <= u
  }

  class Controller {
    const pending: array<u64>
    var interruptShadow: bool

    ghost predicate Valid() { pending.Length == 4 }

    constructor ()
      ensures Valid() && fresh(pending) && Vectors(pending[..]) == {} && !interruptShadow
    {
      pending := new u64[4](_ => 0);
      interruptShadow := false;
      new;
      forall v: Vector ensures !IsPending(pending[..], v) {
        BitZero(v % 64);
      }
    }

    method RaiseIrq(vector: Vector)
      requires Valid()
      modifies pending
      ensures pending[..] == Raise(old(pending[..]), vector)
      ensures Vectors(pending[..]) == old(Vectors(pending[..])) + {vector}
    {
      SetRefinement(pending[..], vector);
      var word := vector / 64;
      var bit := vector % 64;
      pending[word] := SetBit(pending[word], bit);
    }

    method ClearIrq(vector: Vector)
      requires Valid()
      modifies pending
      ensures pending[..] == Clear(old(pending[..]), vector)
      ensures Vectors(pending[..]) == old(Vectors(pending[..])) - {vector}
    {
      SetRefinement(pending[..], vector);
      var word := vector / 64;
      var bit := vector % 64;
      pending[word] := ClearBit(pending[word], bit);
    }

    method Acknowledge(vector: Vector)
      requires Valid()
      modifies pending
      ensures pending[..] == Clear(old(pending[..]), vector)
      ensures Vectors(pending[..]) == old(Vectors(pending[..])) - {vector}
    {
      ClearIrq(vector);
    }

    /** The lowest pending vector, if it may be delivered now. */
    method PendingInterrupt(rflags: bv64) returns (r: Option<Vector>)
      requires Valid()
      ensures interruptShadow || (rflags >> 9) & 1 == 0 ==> r == None
      ensures !interruptShadow && (rflags >> 9) & 1 == 1 ==> IsLowest(r, Vectors(pending[..]))
    {
      if interruptShadow {
        return None;
      }
      var ifSet := Has(rflags, IF);
      var wordIdx := 0;
      while wordIdx < 4
        invariant 0 <= wordIdx <= 4
        invariant forall k | 0 <= k < wordIdx :: pending[k] == 0
      {
        if pending[wordIdx] != 0 {
          FirstWord(pending[..], wordIdx);
          var vec := wordIdx * 64 + TrailingZeros(pending[wordIdx]);
          if ifSet {
            return Some(vec);
          }
          return None;
        }
        wordIdx := wordIdx + 1;
      }
      NoWord(pending[..]);
      return None;
    }

    method LowestPendingVector() returns (r: Option<Vector>)
      requires Valid()
      ensures IsLowest(r, Vectors(pending[..]))
    {
      var wordIdx := 0;
      while wordIdx < 4
        invariant 0 <= wordIdx <= 4
        invariant forall k | 0 <= k < wordIdx :: pending[k] == 0
      {
        if pending[wordIdx] != 0 {
          FirstWord(pending[..], wordIdx);
          return Some(wordIdx * 64 + TrailingZeros(pending[wordIdx]));
        }
        wordIdx := wordIdx + 1;
      }
      NoWord(pending[..]);
      return None;
    }
  }

  lemma NoWord(words: seq<u64>)
    requires WellFormed(words) && forall k | 0 <= k < 4 :: words[k] == 0
    ensures Vectors(words) == {}
  {
    forall v: Vector ensures !IsPending(words, v) {
      BitZero(v % 64);
    }
  }

  lemma FirstWord(words: seq<u64>, k: nat)
    requires WellFormed(words) && k < 4 && words[k] != 0 && forall j | 0 <= j < k :: words[j] == 0
    ensures TrailingZeros(words[k]) < 64
    ensures IsLowest(Some(k * 64 + TrailingZeros(words[k])), Vectors(words))
  {
    hide Bit, TrailingZeros;
    var n := TrailingZeros(words[k]);
    Pow2Values();
    if n >= 64 {
      HighBitsClear(words[k], 64, n);
    }
    var v := k * 64 + n;
    assert v / 64 == k && v % 64 == n;
    assert IsPending(words, v);
    forall u: Vector | u in Vectors(words) ensures v <= u {
      assert Bit(words[u / 64], u % 64);
      if u / 64 < k { BitZero(u % 64); }
    }
  }

  // ---- Runs

  datatype Op = RaiseOp(v: Vector) | ClearOp(v: Vector) | AcknowledgeOp(v: Vector)

  function Run(ops: seq<Op>): (words: seq<u64>)
    ensures WellFormed(words)
  {
    if ops == [] then [0, 0, 0, 0]
    else
      var words := Run(ops[..|ops| - 1]);
      match ops[|ops| - 1]
      case RaiseOp(v) => Raise(words, v)
      case ClearOp(v) => Clear(words, v)
      case AcknowledgeOp(v) => Clear(words, v)
  }

  /** The last operation on `v` is a raise. */
  predicate LastRaised(ops: seq<Op>, v: Vector) {
    ops != [] &&
    var last := ops[|ops| - 1];
    if last.v == v then last.RaiseOp? else LastRaised(ops[..|ops| - 1], v)
  }

  /** After any run a vector is pending exactly when it was raised later than it was last
      cleared or acknowledged. */
  lemma {:induction false} PendingIffLastRaised(ops: seq<Op>, v: Vector)
    ensures v in Vectors(Run(ops)) <==> LastRaised(ops, v)
  {
    hide IsPending, Raise, Clear;
    if ops == [] {
      NoWord([0, 0, 0, 0]);
    } else {
      PendingIffLastRaised(ops[..|ops| - 1], v);
      SetRefinement(Run(ops[..|ops| - 1]), ops[|ops| - 1].v);
    }
  }

  // ---- Delivery

  /** Vectors delivered and acknowledged one after the other while interrupts are enabled: each
      is the lowest pending one, and the bitmap ends up empty. */
  ghost predicate Drains(words: seq<u64>, delivered: seq<Vector>)
    requires WellFormed(words)
    decreases |delivered|
  {
    if delivered == [] then Vectors(words) == {}
    else IsLowest(Some(delivered[0]), Vectors(words)) && Drains(Clear(words, delivered[0]), delivered[1..])
  }

  lemma {:induction false} Minimum(s: set<Vector>) returns (v: Vector)
    requires s != {}
    ensures v in s && forall u | u in s :: v <= u
    decreases s
  {
    v :| v in s;
    if s != {v} {
      var rest := s - {v};
      assert s == rest + {v};
      var w := Minimum(rest);
      if w < v { v := w; }
    }
  }

  /** Delivery always comes to an end. */
  lemma {:induction false} DrainExists(words: seq<u64>) returns (delivered: seq<Vector>)
    requires WellFormed(words)
    ensures Drains(words, delivered)
    decreases Vectors(words)
  {
    hide IsPending, Vectors, Clear;
    if Vectors(words) == {} {
      delivered := [];
    } else {
      var v := Minimum(Vectors(words));
      SetRefinement(words, v);
      var rest := DrainExists(Clear(words, v));
      delivered := [v] + rest;
      assert delivered[1..] == rest;
    }
  }

  /** It emits exactly the pending set, in strictly ascending order. */
  lemma {:induction false} DrainEmitsSorted(words: seq<u64>, delivered: seq<Vector>)
    requires WellFormed(words) && Drains(words, delivered)
    ensures forall i, j | 0 <= i < j < |delivered| :: delivered[i] < delivered[j]
    ensures forall v :: v in delivered <==> v in Vectors(words)
    decreases |delivered|
  {
    hide IsPending, Clear, Vectors;
    if delivered != [] {
      var v, rest := delivered[0], delivered[1..];
      SetRefinement(words, v);
      DrainEmitsSorted(Clear(words, v), rest);
      assert delivered == [v] + rest;
      forall i, j | 0 <= i < j < |delivered| ensures delivered[i] < delivered[j] {
        assert delivered[j] == rest[j - 1] && rest[j - 1] in rest;
        if i > 0 { assert delivered[i] == rest[i - 1]; }
      }
    }
  }
}
