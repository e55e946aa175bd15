// Command lines split into words, with quoting.
module Tokenizer {
  import opened Wrappers
  import opened StdText

  predicate IsBlank(c: char) { c == ' ' || c == '\t' }
  predicate IsMark(c: char) { c == '"' || c == '\'' }

  // ---- Grammar

  /** A word at the front of the text, with what follows it: bare characters and quoted runs side by
      side. A quote that is never closed runs to the end. */
  function Word(s: string): (r: (string, string))
    ensures |r.1| <= |s|
    ensures s != [] && !IsBlank(s[0]) ==> |r.1| < |s|
    decreases |s|
  {
    if s == [] || IsBlank(s[0]) then ([], s)
    else if IsMark(s[0]) then
      match IndexOf(s[1..], s[0])
      case None => (s[1..], [])
      case Some(i) =>
        var (w, rest) := Word(s[i + 2..]);
        (s[1..i + 1] + w, rest)
    else
      var (w, rest) := Word(s[1..]);
      ([s[0]] + w, rest)
  }

  function Emit(w: string): seq<string> { if w == [] then [] else [w] }

  /** The tokens of a text: its words, blanks apart, less the empty ones. */
  function Lex(s: string): seq<string>
    decreases |s|
  {
    if s == [] then []
    else if IsBlank(s[0]) then Lex(s[1..])
    else
      var (w, rest) := Word(s);
      Emit(w) + Lex(rest)
  }

  // ---- The scanner

  /** What the scanner's state still makes of the rest of the input. */
  function Pending(current: string, inQuote: bool, mark: char, rest: string): seq<string>
    decreases |rest|
  {
    if inQuote then
      match IndexOf(rest, mark)
      case None => Emit(current + rest)
      case Some(i) => Pending(current + rest[..i], false, mark, rest[i + 1..])
    else
      var (w, after) := Word(rest);
      Emit(current + w) + Lex(after)
  }

  lemma PendingStart(mark: char, s: string)
    ensures Pending([], false, mark, s) == Lex(s)
  {
    if s == [] || IsBlank(s[0]) {
      assert Emit([] + []) == [];
      assert [] + Lex(s) == Lex(s);
    } else {
      assert [] + Word(s).0 == Word(s).0;
    }
  }

  lemma PendingBlank(current: string, mark: char, s: string)
    requires s != [] && IsBlank(s[0])
    ensures Pending(current, false, mark, s) == Emit(current) + Lex(s[1..])
  {
    assert current + [] == current;
  }

  lemma PendingMark(current: string, mark: char, s: string)
    requires s != [] && IsMark(s[0])
    ensures Pending(current, false, mark, s) == Pending(current, true, s[0], s[1..])
  {
    var rest := s[1..];
    match IndexOf(rest, s[0]) {
      case None => assert current + rest + [] == current + rest;
      case Some(i) =>
        assert s[i + 2..] == rest[i + 1..] && s[1..i + 1] == rest[..i];
        var (w, after) := Word(rest[i + 1..]);
        assert current + (rest[..i] + w) == current + rest[..i] + w;
    }
  }

  lemma PendingBare(current: string, mark: char, s: string)
    requires s != [] && !IsMark(s[0]) && !IsBlank(s[0])
    ensures Pending(current, false, mark, s) == Pending(current + [s[0]], false, mark, s[1..])
  {
    var (w, after) := Word(s[1..]);
    assert current + ([s[0]] + w) == current + [s[0]] + w;
  }

  lemma PendingQuoted(current: string, mark: char, s: string)
    requires s != []
    ensures Pending(current, true, mark, s) ==
            if s[0] == mark then Pending(current, false, mark, s[1..])
            else Pending(current + [s[0]], true, mark, s[1..])
  {
    hide Pending;
    if s[0] == mark {
      PendingCloses(current, mark, s);
    } else {
      match IndexOf(s[1..], mark) {
        case None => PendingUnclosed(current, mark, s);
        case Some(i) => PendingInside(current, mark, s, i);
      }
    }
  }

  lemma PendingCloses(current: string, mark: char, s: string)
    requires s != [] && s[0] == mark
    ensures Pending(current, true, mark, s) == Pending(current, false, mark, s[1..])
  {
    hide Word;
    assert IndexOf(s, mark) == Some(0);
    assert current + s[..0] == current;
  }

  lemma PendingUnclosed(current: string, mark: char, s: string)
    requires s != [] && s[0] != mark && IndexOf(s[1..], mark) == None
    ensures Pending(current, true, mark, s) == Pending(current + [s[0]], true, mark, s[1..])
  {
    hide Word;
    assert IndexOf(s, mark) == None;
    assert current + s == current + [s[0]] + s[1..];
  }

  lemma PendingInside(current: string, mark: char, s: string, i: nat)
    requires s != [] && s[0] != mark && IndexOf(s[1..], mark) == Some(i)
    ensures Pending(current, true, mark, s) == Pending(current + [s[0]], true, mark, s[1..])
  {
    hide Word;
    var rest := s[1..];
    assert IndexOf(s, mark) == Some(i + 1);
    assert s[..i + 1] == [s[0]] + rest[..i] && s[i + 2..] == rest[i + 1..];
    assert current + s[..i + 1] == current + [s[0]] + rest[..i];
  }

  lemma PendingEnd(current: string, inQuote: bool, mark: char)
    ensures Pending(current, inQuote, mark, []) == Emit(current)
  {
    assert current + [] == current;
  }

  method Tokenize(input: string) returns (tokens: seq<string>)
    ensures tokens == Lex(input)
  {
    hide Pending, Lex;
    tokens := [];
    var current := [];
    var inQuote := false;
    var quoteChar := '"';
    PendingStart(quoteChar, input);
    assert input[0..] == input;
    for i := 0 to |input|
      invariant tokens + Pending(current, inQuote, quoteChar, input[i..]) == Lex(input)
    {
      var ch := input[i];
      assert input[i..][1..] == input[i + 1..];
      if inQuote {
        PendingQuoted(current, quoteChar, input[i..]);
        if ch == quoteChar {
          inQuote := false;
        } else {
          current := current + [ch];
        }
      } else if ch == '"' || ch == '\'' {
        PendingMark(current, quoteChar, input[i..]);
        inQuote := true;
        quoteChar := ch;
      } else if ch == ' ' || ch == '\t' {
        PendingBlank(current, quoteChar, input[i..]);
        PendingStart(quoteChar, input[i + 1..]);
        assert tokens + (Emit(current) + Lex(input[i + 1..])) == tokens + Emit(current) + Lex(input[i + 1..]);
        if current != [] {
          tokens := tokens + [current];
          current := [];
        }
      } else {
        PendingBare(current, quoteChar, input[i..]);
        current := current + [ch];
      }
    }
    assert input[|input|..] == [];
    PendingEnd(current, inQuote, quoteChar);
    if current != [] {
      tokens := tokens + [current];
    }
  }

  // ---- What tokenizing keeps and undoes

  lemma {:induction false} NoEmptyTokens(s: string)
    ensures [] !in Lex(s)
    decreases |s|
  {
    hide Word;
    if s != [] {
      if IsBlank(s[0]) { NoEmptyTokens(s[1..]); } else { NoEmptyTokens(Word(s).1); }
    }
  }

  /** A stretch of a word as a user writes it. */
  datatype Run = Bare(text: string) | Quoted(mark: char, text: string)

  predicate IsRun(r: Run) {
    match r
    case Bare(t) => forall c | c in t :: !IsBlank(c) && !IsMark(c)
    case Quoted(m, t) => IsMark(m) && m !in t
  }

  function RunText(r: Run): string {
    match r case Bare(t) => t case Quoted(m, t) => [m] + t + [m]
  }

  function WordText(runs: seq<Run>): string {
    if runs == [] then [] else RunText(runs[0]) + WordText(runs[1..])
  }

  /** What a word means: its runs without their quote marks. */
  function Meaning(runs: seq<Run>): string {
    if runs == [] then [] else runs[0].text + Meaning(runs[1..])
  }

  predicate EndsWord(s: string) { s == [] || IsBlank(s[0]) }

  lemma {:induction false} WordOfBare(text: string, tail: string)
    requires forall c | c in text :: !IsBlank(c) && !IsMark(c)
    ensures Word(text + tail) == (text + Word(tail).0, Word(tail).1)
    decreases |text|
  {
    if text == [] {
      assert text + tail == tail && text + Word(tail).0 == Word(tail).0;
    } else {
      WordOfBare(text[1..], tail);
      assert text[0] in text && (text + tail)[1..] == text[1..] + tail;
      assert [text[0]] + (text[1..] + Word(tail).0) == text + Word(tail).0;
    }
  }

  lemma WordOfQuoted(mark: char, text: string, tail: string)
    requires IsMark(mark) && mark !in text
    ensures Word([mark] + text + [mark] + tail) == (text + Word(tail).0, Word(tail).1)
  {
    var s := [mark] + text + [mark] + tail;
    IndexOfFirst(text, mark, tail);
    assert s[1..] == text + [mark] + tail;
    assert s[|text| + 2..] == tail && s[1..|text| + 1] == text;
  }

  lemma {:induction false} WordOfRuns(runs: seq<Run>, tail: string)
    requires (forall r | r in runs :: IsRun(r)) && EndsWord(tail)
    ensures Word(WordText(runs) + tail) == (Meaning(runs), tail)
  {
    hide Word;
    if runs == [] {
      assert WordText(runs) + tail == tail;
      NoWord(tail);
    } else {
      var r, more := runs[0], WordText(runs[1..]) + tail;
      assert r in runs;
      WordOfRuns(runs[1..], tail);
      assert WordText(runs) + tail == RunText(r) + more;
      match r {
        case Bare(t) => WordOfBare(t, more);
        case Quoted(m, t) =>
          WordOfQuoted(m, t, more);
          assert RunText(r) + more == [m] + t + [m] + more;
      }
    }
  }

  lemma NoWord(tail: string)
    requires EndsWord(tail)
    ensures Word(tail) == ([], tail)
  {}

  /** A word and the blanks in front of it. */
  datatype Item = Item(gap: string, runs: seq<Run>)

  predicate AllBlank(s: string) { forall c | c in s :: IsBlank(c) }

  predicate IsLine(items: seq<Item>) {
    forall i | 0 <= i < |items| ::
      AllBlank(items[i].gap) && (i > 0 ==> items[i].gap != []) && forall r | r in items[i].runs :: IsRun(r)
  }

  function LineText(items: seq<Item>, trailing: string): string {
    if items == [] then trailing
    else items[0].gap + (WordText(items[0].runs) + LineText(items[1..], trailing))
  }

  function Meanings(items: seq<Item>): seq<string> {
    if items == [] then [] else Emit(Meaning(items[0].runs)) + Meanings(items[1..])
  }

  lemma {:induction false} LexSkipsBlanks(gap: string, s: string)
    requires AllBlank(gap)
    ensures Lex(gap + s) == Lex(s)
    decreases |gap|
  {
    if gap == [] {
      assert gap + s == s;
    } else {
      assert gap[0] in gap && (gap + s)[1..] == gap[1..] + s;
      LexSkipsBlanks(gap[1..], s);
    }
  }

  lemma LexOfWord(s: string)
    ensures Lex(s) == Emit(Word(s).0) + Lex(Word(s).1)
  {
    if s == [] || IsBlank(s[0]) {
      assert [] + Lex(s) == Lex(s);
    }
  }

  /** Any words, written in any mix of bare and quoted runs and set apart by any blanks, come back
      as what they mean, in order; only words that mean nothing are left out. */
  lemma {:induction false} LexInvertsQuoting(items: seq<Item>, trailing: string)
    requires IsLine(items) && AllBlank(trailing)
    ensures Lex(LineText(items, trailing)) == Meanings(items)
  {
    hide Word, Lex, WordText, Meaning, IsRun;
    if items == [] {
      assert trailing + [] == trailing;
      LexSkipsBlanks(trailing, []);
      LexNothing();
    } else {
      var rest := LineText(items[1..], trailing);
      assert IsLine(items[1..]) by { assert forall i | 0 <= i < |items[1..]| :: items[1..][i] == items[i + 1]; }
      LexInvertsQuoting(items[1..], trailing);
      LexSkipsBlanks(items[0].gap, WordText(items[0].runs) + rest);
      assert EndsWord(rest) by {
        if |items| == 1 {
          if trailing != [] { assert trailing[0] in trailing; }
        } else {
          assert items[1..][0] == items[1] && items[1].gap[0] in items[1].gap && rest[0] == items[1].gap[0];
        }
      }
      WordOfRuns(items[0].runs, rest);
      LexOfWord(WordText(items[0].runs) + rest);
    }
  }

  lemma LexNothing()
    ensures Lex([]) == []
  {}

  // ---- A quote that is never closed

  /** The mark of the quote that is open at the end of the text, if there is one. */
  function OpenAt(s: string, open: Option<char>): Option<char>
    decreases |s|
  {
    if s == [] then open
    else
      match open
      case None => OpenAt(s[1..], if IsMark(s[0]) then Some(s[0]) else None)
      case Some(mark) => OpenAt(s[1..], if s[0] == mark then None else open)
  }

  lemma {:induction false} PendingCloseLast(current: string, inQuote: bool, mark: char, s: string, last: char)
    requires OpenAt(s, if inQuote then Some(mark) else None) == Some(last)
    ensures Pending(current, inQuote, mark, s + [last]) == Pending(current, inQuote, mark, s)
    decreases |s|
  {
    hide Pending, Word, Lex;
    var longer := s + [last];
    if s == [] {
      PendingQuoted(current, mark, longer);
      PendingEnds(current, mark);
      assert longer[1..] == [];
    } else {
      assert longer[0] == s[0] && longer[1..] == s[1..] + [last];
      if inQuote {
        PendingQuoted(current, mark, s);
        PendingQuoted(current, mark, longer);
        PendingCloseLast(if s[0] == mark then current else current + [s[0]], s[0] != mark, mark, s[1..], last);
      } else if IsMark(s[0]) {
        PendingMark(current, mark, s);
        PendingMark(current, mark, longer);
        PendingCloseLast(current, true, s[0], s[1..], last);
      } else if IsBlank(s[0]) {
        PendingBlank(current, mark, s);
        PendingBlank(current, mark, longer);
        PendingStart(mark, s[1..]);
        PendingStart(mark, longer[1..]);
        PendingCloseLast([], false, mark, s[1..], last);
      } else {
        PendingBare(current, mark, s);
        PendingBare(current, mark, longer);
        PendingCloseLast(current + [s[0]], false, mark, s[1..], last);
      }
    }
  }

  lemma PendingEnds(current: string, mark: char)
    ensures Pending(current, true, mark, []) == Pending(current, false, mark, []) == Emit(current)
  {
    assert current + [] == current && Lex([]) == [] && Emit(current) + [] == Emit(current);
  }

  /** A line that ends inside a quote means what it means with that quote closed. */
  lemma UnclosedIsClosed(s: string)
    ensures OpenAt(s, None).Some? ==> Lex(s) == Lex(s + [OpenAt(s, None).value])
  {
    hide Pending, Lex;
    if OpenAt(s, None).Some? {
      var mark := OpenAt(s, None).value;
      PendingStart(mark, s);
      PendingStart(mark, s + [mark]);
      PendingCloseLast([], false, mark, s, mark);
    }
  }

  /** A way to quote any text: runs of one kind of mark are quoted with the other. */
  function QuoteRuns(t: string): seq<Run> {
    if t == [] then []
    else
      var more := QuoteRuns(t[1..]);
      var mark := if t[0] == '"' then '\'' else '"';
      if more != [] && more[0].Quoted? && more[0].mark !in [t[0]] then
        [Quoted(more[0].mark, [t[0]] + more[0].text)] + more[1..]
      else [Quoted(mark, [t[0]])] + more
  }

  lemma QuotedFirst(mark: char, text: string, more: seq<Run>)
    ensures Meaning([Quoted(mark, text)] + more) == text + Meaning(more)
  {
    assert ([Quoted(mark, text)] + more)[1..] == more;
  }

  lemma {:induction false} QuoteRunsMean(t: string)
    ensures Meaning(QuoteRuns(t)) == t && forall r | r in QuoteRuns(t) :: IsRun(r)
  {
    hide Meaning;
    if t == [] {
      MeansNothing();
    } else {
      QuoteRunsMean(t[1..]);
      var more := QuoteRuns(t[1..]);
      var mark := if t[0] == '"' then '\'' else '"';
      if more != [] && more[0].Quoted? && more[0].mark != t[0] {
        assert more[0] in more && [more[0]] + more[1..] == more;
        QuotedFirst(more[0].mark, more[0].text, more[1..]);
        QuotedFirst(more[0].mark, [t[0]] + more[0].text, more[1..]);
        assert [t[0]] + more[0].text + Meaning(more[1..]) == [t[0]] + (more[0].text + Meaning(more[1..]));
      } else {
        QuotedFirst(mark, [t[0]], more);
      }
    }
  }

  lemma MeansNothing()
    ensures Meaning([]) == []
  {}

  function QuotedItems(tokens: seq<string>): (items: seq<Item>)
    ensures |items| == |tokens|
    ensures forall i | 0 <= i < |tokens| :: items[i] == Item(if i == 0 then [] else " ", QuoteRuns(tokens[i]))
  {
    seq(|tokens|, i requires 0 <= i < |tokens| => Item(if i == 0 then [] else " ", QuoteRuns(tokens[i])))
  }

  lemma {:induction false} MeaningsAre(items: seq<Item>, tokens: seq<string>)
    requires |items| == |tokens| && [] !in tokens
    requires forall i | 0 <= i < |tokens| :: Meaning(items[i].runs) == tokens[i]
    ensures Meanings(items) == tokens
  {
    hide Meaning;
    if items != [] {
      assert tokens[0] in tokens && tokens == [tokens[0]] + tokens[1..];
      MeaningsAre(items[1..], tokens[1..]);
    }
  }

  /** Every list of non-empty tokens, each quoted and joined by spaces, tokenizes to itself. */
  lemma QuotedTokensComeBack(tokens: seq<string>)
    requires [] !in tokens
    ensures Lex(LineText(QuotedItems(tokens), [])) == tokens
  {
    hide QuoteRuns, Meaning, IsRun, Lex, LineText, Meanings;
    var items := QuotedItems(tokens);
    forall i | 0 <= i < |tokens|
      ensures Meaning(items[i].runs) == tokens[i] && forall r | r in items[i].runs :: IsRun(r)
    {
      QuoteRunsMean(tokens[i]);
    }
    MeaningsAre(items, tokens);
    LexInvertsQuoting(items, []);
  }

  // ---- Lines

  /** Blanks and empty quotes, with at most one dangling mark at the end. */
  predicate SaysNothing(s: string)
    decreases |s|
  {
    s == [] ||
    (IsBlank(s[0]) && SaysNothing(s[1..])) ||
    (IsMark(s[0]) && (|s| == 1 || (s[1] == s[0] && SaysNothing(s[2..]))))
  }

  lemma {:induction false} NothingExactly(s: string)
    ensures Lex(s) == [] <==> SaysNothing(s)
    decreases |s|
  {
    if s == [] {
    } else if IsBlank(s[0]) {
      NothingExactly(s[1..]);
    } else if IsMark(s[0]) && |s| > 1 && s[1] == s[0] {
      NothingExactly(s[2..]);
      LexOfWord(s[2..]);
      assert IndexOf(s[1..], s[0]) == Some(0) && s[1..1] == [];
      assert [] + Word(s[2..]).0 == Word(s[2..]).0;
    } else if IsMark(s[0]) && |s| > 1 {
      var i := IndexOf(s[1..], s[0]);
      assert i != Some(0);
      assert Word(s).0 != [];
    }
  }

  /** The command name, brought to lower case by `lower`, and its arguments. */
  method ParseLine(input: string, lower: string -> string) returns (r: Option<(string, seq<string>)>)
    ensures r == None <==> SaysNothing(Trim(input))
    ensures r.Some? ==>
              var tokens := Lex(Trim(input));
              tokens != [] && r.value == (lower(tokens[0]), tokens[1..]) && [] !in r.value.1
  {
    var trimmed := Trim(input);
    NothingExactly(trimmed);
    NoEmptyTokens(trimmed);
    if trimmed == [] {
      return None;
    }
    var tokens := Tokenize(trimmed);
    if tokens == [] {
      return None;
    }
    return Some((lower(tokens[0]), tokens[1..]));
  }
}
