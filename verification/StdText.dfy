// Lines, key/value splitting, trimming and decimal numbers, with the semantics of the standard
// library calls the modelled code makes.
module StdText {
  import opened Wrappers

  const NL := '\n'
  const CR := '\r'

  // ---- Lines

  function IndexOf<T(==)>(s: seq<T>, c: T): (r: Option<nat>)
    ensures r.Some? ==> r.value < |s| && s[r.value] == c && c !in s[..r.value]
    ensures r.None? ==> c !in s
  {
    if s == [] then None
    else if s[0] == c then Some(0)
    else
      match IndexOf(s[1..], c)
      case None => None
      case Some(i) =>
        assert s[..i + 1] == [s[0]] + s[1..][..i];
        Some(i + 1)
  }

  lemma {:induction false} IndexOfFirst<T>(a: seq<T>, c: T, b: seq<T>)
    requires c !in a
    ensures IndexOf(a + [c] + b, c) == Some(|a|)
  {
    var s := a + [c] + b;
    if a != [] {
      IndexOfFirst(a[1..], c, b);
      assert s[1..] == a[1..] + [c] + b;
    }
  }

  predicate EndsInCr(s: string) { s != [] && s[|s| - 1] == CR }

  function StripCr(s: string): string {
    if EndsInCr(s) then s[..|s| - 1] else s
  }

  /** The pieces between newlines. One carriage return before a newline belongs to the line end;
      a last piece without newline keeps its own. */
  function Lines(s: string): seq<string>
    decreases |s|
  {
    if s == [] then []
    else
      match IndexOf(s, NL)
      case None => [s]
      case Some(i) => [StripCr(s[..i])] + Lines(s[i + 1..])
  }

  lemma {:induction false} LinesHaveNoNewline(s: string)
    ensures forall l | l in Lines(s) :: NL !in l
    decreases |s|
  {
    if s != [] && IndexOf(s, NL).Some? {
      LinesHaveNoNewline(s[IndexOf(s, NL).value + 1..]);
    }
  }

  lemma LinesOfFirst(line: string, rest: string)
    requires NL !in line
    ensures Lines(line + [NL] + rest) == [StripCr(line)] + Lines(rest)
  {
    IndexOfFirst(line, NL, rest);
    var s := line + [NL] + rest;
    assert s[..|line|] == line && s[|line| + 1..] == rest;
  }

  // ---- Key and value

  function SplitOnce<T(==)>(s: seq<T>, sep: T): Option<(seq<T>, seq<T>)> {
    match IndexOf(s, sep)
    case None => None
    case Some(i) => Some((s[..i], s[i + 1..]))
  }

  lemma SplitOnceInverts<T>(key: seq<T>, sep: T, val: seq<T>)
    requires sep !in key
    ensures SplitOnce(key + [sep] + val, sep) == Some((key, val))
  {
    IndexOfFirst(key, sep, val);
    var s := key + [sep] + val;
    assert s[..|key|] == key && s[|key| + 1..] == val;
  }

  /** The Unicode White_Space property. */
  predicate IsWhitespace(c: char) {
    var n := c as int;
    0x09 <= n <= 0x0D || n == 0x20 || n == 0x85 || n == 0xA0 || n == 0x1680 ||
    0x2000 <= n <= 0x200A || n == 0x2028 || n == 0x2029 || n == 0x202F || n == 0x205F || n == 0x3000
  }

  /** The 25 white-space characters of the Unicode Character Database (PropList). */
  lemma WhitespaceExactly(c: char)
    ensures IsWhitespace(c) <==>
            c as int in {9, 10, 11, 12, 13, 32, 133, 160, 5760, 8192, 8193, 8194, 8195, 8196, 8197, 8198, 8199,
                         8200, 8201, 8202, 8232, 8233, 8239, 8287, 12288}
  {}

  function TrimStart(s: string): string {
    if s != [] && IsWhitespace(s[0]) then TrimStart(s[1..]) else s
  }

  function TrimEnd(s: string): string {
    if s != [] && IsWhitespace(s[|s| - 1]) then TrimEnd(s[..|s| - 1]) else s
  }

  function Trim(s: string): string { TrimEnd(TrimStart(s)) }

  // ---- Decimal numbers

  predicate IsDigit(c: char) { '0' <= c <= '9' }

  predicate AllDigits(s: string) { forall i | 0 <= i < |s| :: IsDigit(s[i]) }

  function DecimalValue(s: string): nat
    requires AllDigits(s)
  {
    if s == [] then 0
    else 10 * DecimalValue(s[..|s| - 1]) + (s[|s| - 1] as int - '0' as int)
  }

  function DigitChar(n: nat): char
    requires n < 10
  {
    (n + '0' as int) as char
  }

  function ToDecimal(n: nat): string {
    if n < 10 then [DigitChar(n)] else ToDecimal(n / 10) + [DigitChar(n % 10)]
  }

  /** Parsing of an unsigned integer of bounded width: one optional `+`, then digits only. */
  function ParseUnsigned(s: string, max: nat): Option<nat> {
    var digits := if s != [] && s[0] == '+' then s[1..] else s;
    if digits == [] || !AllDigits(digits) then None
    else if DecimalValue(digits) > max then None
    else Some(DecimalValue(digits))
  }

  lemma {:induction false} DecimalValueOfToDecimal(n: nat)
    ensures ToDecimal(n) != [] && AllDigits(ToDecimal(n)) && DecimalValue(ToDecimal(n)) == n
  {
    if n >= 10 {
      DecimalValueOfToDecimal(n / 10);
      var front := ToDecimal(n / 10);
      assert ToDecimal(n)[..|front|] == front;
    } else {
      assert DecimalValue([DigitChar(n)]) == n by { assert DecimalValue([DigitChar(n)][..0]) == 0; }
    }
  }

  /** A printed number reads back as itself, at any width that can hold it. */
  lemma ParseInvertsToDecimal(n: nat, max: nat)
    ensures ParseUnsigned(ToDecimal(n), max) == if n <= max then Some(n) else None
  {
    DecimalValueOfToDecimal(n);
    assert IsDigit(ToDecimal(n)[0]);
  }

  lemma ToDecimalIsClean(n: nat)
    ensures NL !in ToDecimal(n) && '=' !in ToDecimal(n) && !EndsInCr(ToDecimal(n))
    ensures !IsWhitespace(ToDecimal(n)[|ToDecimal(n)| - 1])
  {
    DecimalValueOfToDecimal(n);
    var s := ToDecimal(n);
    assert forall i | 0 <= i < |s| :: IsDigit(s[i]);
    assert IsDigit(s[|s| - 1]);
  }
}
