// Fixed-width integers as byte strings, in both byte orders.
module Bytes {
  import opened Basics

  /** 256^k, the number of values k bytes can hold. */
  function Range(k: nat): (r: nat)
    ensures r > 0
  {
    if k == 0 then 1 else 256 * Range(k - 1)
  }

  lemma RangeValues()
    ensures Range(2) == 0x1_0000 && Range(4) == 0x1_0000_0000 && Range(8) == 0x1_0000_0000_0000_0000
  {
    assert Range(2) == 256 * Range(1) && Range(4) == 65536 * Range(2);
    assert Range(8) == 0x1_0000_0000 * Range(4) by {
      assert Range(6) == 65536 * Range(4) && Range(8) == 65536 * Range(6);
    }
  }

  /** The low k bytes of n, least significant first. */
  function ToLe(n: nat, k: nat): (s: seq<u8>)
    ensures |s| == k
  {
    if k == 0 then [] else [n % 256] + ToLe(n / 256, k - 1)
  }

  function FromLe(s: seq<u8>): (n: nat)
    ensures n < Range(|s|)
  {
    if s == [] then 0 else s[0] + 256 * FromLe(s[1..])
  }

  /** The low k bytes of n, most significant first. */
  function ToBe(n: nat, k: nat): (s: seq<u8>)
    ensures |s| == k
  {
    if k == 0 then [] else ToBe(n / 256, k - 1) + [n % 256]
  }

  function FromBe(s: seq<u8>): (n: nat)
    ensures n < Range(|s|)
  {
    if s == [] then 0 else 256 * FromBe(s[..|s| - 1]) + s[|s| - 1]
  }

  lemma LowByte(b: u8, rest: nat)
    ensures (256 * rest + b) % 256 == b && (256 * rest + b) / 256 == rest
  {}

  lemma {:induction false} LeReadsBack(n: nat, k: nat)
    requires n < Range(k)
    ensures FromLe(ToLe(n, k)) == n
  {
    if k > 0 {
      LeReadsBack(n / 256, k - 1);
    }
  }

  lemma {:induction false} LeWritesBack(s: seq<u8>)
    ensures ToLe(FromLe(s), |s|) == s
  {
    if s != [] {
      LeWritesBack(s[1..]);
      LowByte(s[0], FromLe(s[1..]));
      assert s == [s[0]] + s[1..];
    }
  }

  lemma {:induction false} BeReadsBack(n: nat, k: nat)
    requires n < Range(k)
    ensures FromBe(ToBe(n, k)) == n
  {
    if k > 0 {
      BeReadsBack(n / 256, k - 1);
    }
  }

  lemma {:induction false} BeWritesBack(s: seq<u8>)
    ensures ToBe(FromBe(s), |s|) == s
  {
    if s != [] {
      var front, last := s[..|s| - 1], s[|s| - 1];
      BeWritesBack(front);
      LowByte(last, FromBe(front));
      assert s == front + [last];
    }
  }

  /** Byte `i` of the little-endian form is digit `i` in base 256. */
  lemma {:induction false} LeDigit(n: nat, k: nat, i: nat)
    requires i < k
    ensures ToLe(n, k)[i] == n / Range(i) % 256
  {
    if i > 0 {
      LeDigit(n / 256, k - 1, i - 1);
      DivTwice(n, Range(i - 1));
    }
  }

  /** And of the big-endian form, counted from the end. */
  lemma {:induction false} BeDigit(n: nat, k: nat, i: nat)
    requires i < k
    ensures ToBe(n, k)[k - 1 - i] == n / Range(i) % 256
  {
    if i > 0 {
      BeDigit(n / 256, k - 1, i - 1);
      DivTwice(n, Range(i - 1));
    }
  }

  /** Only the low k bytes count. */
  lemma {:induction false} BeLow(n: nat, k: nat)
    ensures ToBe(n, k) == ToBe(n % Range(k), k)
  {
    if k > 0 {
      var r := Range(k - 1);
      LowSplit(n, r);
      BeLow(n / 256, k - 1);
      assert Range(k) == 256 * r;
    }
  }

  lemma LowSplit(n: nat, r: nat)
    requires r > 0
    ensures n % (256 * r) / 256 == n / 256 % r && n % (256 * r) % 256 == n % 256
  {
    var d, q, m, b := 256 * r, n / 256 / r, n / 256 % r, n % 256;
    DivTwice(n, r);
    assert n / d == q;
    assert n == 256 * (q * r + m) + b;
    Spread(q, r, m, b);
    Remainder(n, d, q);
    assert n % d == 256 * m + b;
    LowByte(b, m);
  }

  lemma Remainder(n: nat, d: nat, q: nat)
    requires d > 0 && n / d == q
    ensures n % d == n - q * d
  {}

  lemma DivTwice(n: nat, r: nat)
    requires r > 0
    ensures n / 256 / r == n / (256 * r)
  {
    var q, m := n / 256 / r, n / 256 % r;
    var b := n % 256;
    assert n == 256 * (q * r + m) + b;
    assert n == q * (256 * r) + (256 * m + b) by { Spread(q, r, m, b); }
    assert 0 <= 256 * m + b < 256 * r;
    Quotient(n, 256 * r, q, 256 * m + b);
  }

  lemma Spread(q: nat, r: nat, m: nat, b: nat)
    ensures 256 * (q * r + m) + b == q * (256 * r) + (256 * m + b)
  {}

  lemma Quotient(n: nat, d: nat, q: nat, m: nat)
    requires d > 0 && n == q * d + m && m < d
    ensures n / d == q
  {
    var q', m' := n / d, n % d;
    assert q' * d + m' == q * d + m;
    if q' < q {
      MultipleGap(q', q, d);
    } else if q < q' {
      MultipleGap(q, q', d);
    }
  }

  lemma {:induction false} MultipleGap(a: nat, b: nat, d: nat)
    requires a < b
    ensures b * d >= a * d + d
  {
    assert b * d == (b - 1) * d + d;
    if a < b - 1 {
      MultipleGap(a, b - 1, d);
    }
  }

  function Zeros(n: nat): (s: seq<u8>)
    ensures |s| == n && forall i | 0 <= i < n :: s[i] == 0
  {
    seq(n, _ => 0)
  }

  /** The code of every character, which must be ASCII. */
  function Ascii(s: string): (r: seq<u8>)
    requires forall i | 0 <= i < |s| :: s[i] < 128 as char
    ensures |r| == |s| && forall i | 0 <= i < |s| :: r[i] == s[i] as int
  {
    seq(|s|, i requires 0 <= i < |s| => s[i] as int)
  }
}
