/** Splitting and joining text, and the numerals the text formats use.  A byte
    is a character below 256. */
module Text {

  import opened Wrappers

  predicate Free(s: string, separators: set<char>) {
    forall i :: 0 <= i < |s| ==> s[i] !in separators
  }

  /** The pieces between separators; there is always at least one. */
  function Split(s: string, separators: set<char>): (pieces: seq<string>)
    ensures |pieces| > 0
  {
    if s == "" then [""]
    else
      var rest := Split(s[1..], separators);
      if s[0] in separators then [""] + rest else [[s[0]] + rest[0]] + rest[1..]
  }

  function Join(pieces: seq<string>, separator: char): string {
    if pieces == [] then ""
    else if |pieces| == 1 then pieces[0]
    else pieces[0] + [separator] + Join(pieces[1..], separator)
  }

  lemma {:induction false} SplitFree(s: string, separators: set<char>)
    requires Free(s, separators)
    ensures Split(s, separators) == [s]
  {
    if s != "" {
      assert s[0] !in separators;
      SplitFree(s[1..], separators);
      assert [s[0]] + s[1..] == s;
    }
  }

  lemma {:induction false} SplitAtSeparator(a: string, c: char, b: string, separators: set<char>)
    requires Free(a, separators) && c in separators
    ensures Split(a + [c] + b, separators) == [a] + Split(b, separators)
    decreases |a|
  {
    var s := a + [c] + b;
    if a == "" {
      assert s[1..] == b;
    } else {
      assert a[0] !in separators;
      assert s[1..] == a[1..] + [c] + b;
      SplitAtSeparator(a[1..], c, b, separators);
      assert [a[0]] + a[1..] == a;
    }
  }

  /** Splitting distributes over a separator. */
  lemma {:induction false} SplitConcat(a: string, c: char, b: string, separators: set<char>)
    requires c in separators
    ensures Split(a + [c] + b, separators) == Split(a, separators) + Split(b, separators)
    decreases |a|
  {
    var s := a + [c] + b;
    if a == "" {
      assert s[1..] == b;
    } else {
      assert s[0] == a[0] && s[1..] == a[1..] + [c] + b;
      SplitConcat(a[1..], c, b, separators);
    }
  }

  /** Joining pieces and splitting again gives the pieces back. */
  lemma {:induction false} SplitJoin(pieces: seq<string>, separator: char, separators: set<char>)
    requires pieces != [] && separator in separators
    requires forall i :: 0 <= i < |pieces| ==> Free(pieces[i], separators)
    ensures Split(Join(pieces, separator), separators) == pieces
    decreases |pieces|
  {
    if |pieces| == 1 {
      SplitFree(pieces[0], separators);
    } else {
      SplitJoin(pieces[1..], separator, separators);
      SplitAtSeparator(pieces[0], separator, Join(pieces[1..], separator), separators);
    }
  }

  /** Splitting at one separator loses nothing. */
  lemma {:induction false} JoinSplit(s: string, separator: char)
    ensures Join(Split(s, {separator}), separator) == s
  {
    if s != "" {
      JoinSplit(s[1..], separator);
      var rest := Split(s[1..], {separator});
      var pieces := Split(s, {separator});
      if s[0] == separator {
        assert pieces[1..] == rest;
        assert Join(pieces, separator) == [separator] + s[1..];
      } else {
        assert pieces[1..] == rest[1..];
        assert Join(pieces, separator) == [s[0]] + Join(rest, separator);
      }
    }
  }

  /** Pieces hold no separator, and nothing the text was free of. */
  lemma {:induction false} PiecesAreFree(s: string, separators: set<char>, others: set<char>)
    requires Free(s, others)
    ensures forall i :: 0 <= i < |Split(s, separators)| ==> Free(Split(s, separators)[i], separators + others)
  {
    if s != "" {
      PiecesAreFree(s[1..], separators, others);
      assert s[0] !in others;
    }
  }

  function NonEmpty(pieces: seq<string>): seq<string> {
    if pieces == [] then []
    else (if pieces[0] == "" then [] else [pieces[0]]) + NonEmpty(pieces[1..])
  }

  lemma {:induction false} NonEmptyKeeps(pieces: seq<string>)
    requires forall i :: 0 <= i < |pieces| ==> pieces[i] != ""
    ensures NonEmpty(pieces) == pieces
  {
    if pieces != [] {
      NonEmptyKeeps(pieces[1..]);
    }
  }

  lemma {:induction false} NonEmptyConcat(a: seq<string>, b: seq<string>)
    ensures NonEmpty(a + b) == NonEmpty(a) + NonEmpty(b)
    decreases |a|
  {
    if a == [] {
      assert a + b == b;
    } else {
      assert (a + b)[0] == a[0] && (a + b)[1..] == a[1..] + b;
      NonEmptyConcat(a[1..], b);
    }
  }

  lemma {:induction false} NonEmptyMembers(pieces: seq<string>, word: string)
    requires word in NonEmpty(pieces)
    ensures word in pieces && word != ""
  {
    if pieces[0] == "" || pieces[0] != word {
      NonEmptyMembers(pieces[1..], word);
    }
  }

  // ----- numerals

  predicate IsDigit(c: char, base: nat) {
    '0' <= c && c as int - '0' as int < base
  }

  predicate IsNumeral(s: string, base: nat) {
    s != "" && forall i :: 0 <= i < |s| ==> IsDigit(s[i], base)
  }

  function Value(s: string, base: nat): nat
    requires forall i :: 0 <= i < |s| ==> IsDigit(s[i], base)
  {
    if s == "" then 0
    else
      assert IsDigit(s[|s| - 1], base);
      Value(s[..|s| - 1], base) * base + (s[|s| - 1] as int - '0' as int)
  }

  lemma {:induction false} ValueAppend(s: string, d: char, base: nat)
    requires IsDigit(d, base) && forall i :: 0 <= i < |s| ==> IsDigit(s[i], base)
    ensures forall i :: 0 <= i < |s + [d]| ==> IsDigit((s + [d])[i], base)
    ensures Value(s + [d], base) == Value(s, base) * base + (d as int - '0' as int)
  {
    var t := s + [d];
    assert t[..|t| - 1] == s;
  }

  /** The shortest decimal numeral. */
  function Decimal(n: nat): (s: string)
    ensures IsNumeral(s, 10) && Value(s, 10) == n
  {
    var d := '0' + (n % 10) as char;
    if n < 10 then
      ValueAppend("", d, 10);
      assert "" + [d] == [d];
      [d]
    else
      ValueAppend(Decimal(n / 10), d, 10);
      Decimal(n / 10) + [d]
  }

  /** The shortest octal numeral. */
  function Octal(n: nat): (s: string)
    ensures IsNumeral(s, 8) && Value(s, 8) == n
  {
    var d := '0' + (n % 8) as char;
    if n < 8 then
      ValueAppend("", d, 8);
      assert "" + [d] == [d];
      [d]
    else
      ValueAppend(Octal(n / 8), d, 8);
      Octal(n / 8) + [d]
  }

  const U64_LIMIT: nat := 0x1_0000_0000_0000_0000

  /** An unsigned 64-bit decimal; a leading plus sign is accepted. */
  function ParseU64(text: string): Option<nat> {
    var digits := if text != "" && text[0] == '+' then text[1..] else text;
    if IsNumeral(digits, 10) && Value(digits, 10) < U64_LIMIT then Some(Value(digits, 10)) else None
  }

  lemma {:induction false} ParseDecimal(n: nat)
    requires n < U64_LIMIT
    ensures ParseU64(Decimal(n)) == Some(n)
  {
    assert IsDigit(Decimal(n)[0], 10);
  }

  const DIGITS: set<char> := {'0', '1', '2', '3', '4', '5', '6', '7', '8', '9'}

  /** Not a decimal number below 2^64, with or without a plus sign. */
  ghost predicate IsNoU64(text: string) {
    || text in {"", "+"}
    || (exists i :: 0 <= i < |text| && text[i] !in DIGITS && (i > 0 || text[0] != '+'))
    || (exists n: nat :: n >= 0x1_0000_0000_0000_0000 && text in {Decimal(n), "+" + Decimal(n)})
  }

  /** The digits of a number, behind its plus sign if there is one. */
  function Unsigned(text: string): string {
    if text != "" && text[0] == '+' then text[1..] else text
  }

  lemma {:induction false} StrangeDigit(text: string, i: nat)
    requires i < |text| && text[i] !in DIGITS && (i > 0 || text[0] != '+')
    ensures !IsNumeral(Unsigned(text), 10)
  {
    var k := if text[0] == '+' then i - 1 else i;
    assert Unsigned(text)[k] == text[i] && !IsDigit(text[i], 10);
  }

  lemma {:induction false} TooLarge(text: string, n: nat)
    requires n >= 0x1_0000_0000_0000_0000 && text in {Decimal(n), "+" + Decimal(n)}
    ensures Unsigned(text) == Decimal(n)
  {
    assert IsDigit(Decimal(n)[0], 10);
    assert text[0] == '+' ==> text[1..] == Decimal(n);
  }

  lemma {:induction false} NoU64(text: string)
    requires IsNoU64(text)
    ensures ParseU64(text).None?
  {
    if text in {"", "+"} {
      assert Unsigned(text) == "";
    } else if i :| 0 <= i < |text| && text[i] !in DIGITS && (i > 0 || text[0] != '+') {
      StrangeDigit(text, i);
    } else {
      var n: nat :| n >= 0x1_0000_0000_0000_0000 && text in {Decimal(n), "+" + Decimal(n)};
      TooLarge(text, n);
    }
  }

  // ----- blanks

  predicate IsBlank(c: char) {
    c == ' ' || '\t' <= c <= '\r'
  }

  function TrimStart(s: string): string {
    if s != "" && IsBlank(s[0]) then TrimStart(s[1..]) else s
  }

  function TrimEnd(s: string): string {
    if s != "" && IsBlank(s[|s| - 1]) then TrimEnd(s[..|s| - 1]) else s
  }

  function Trim(s: string): string {
    TrimEnd(TrimStart(s))
  }

  function DropLeading(s: string, c: char): (t: string)
    ensures t == "" || (t[0] != c && |t| <= |s| && t[|t| - 1] == s[|s| - 1])
  {
    if s != "" && s[0] == c then DropLeading(s[1..], c) else s
  }

  function DropTrailing(s: string, c: char): (t: string)
    ensures t == "" || t[|t| - 1] != c
    ensures t <= s
  {
    if s != "" && s[|s| - 1] == c then DropTrailing(s[..|s| - 1], c) else s
  }

  /** Spaces, tabs, line feeds, vertical tabs, form feeds and carriage returns. */
  const SPACES: set<char> := {' ', '\t', '\n', '\U{0b}', '\U{0c}', '\r'}

  predicate IsTidy(s: string) {
    s != "" ==> s[0] !in SPACES && s[|s| - 1] !in SPACES
  }

  lemma {:induction false} TrimTidy(s: string)
    requires IsTidy(s)
    ensures Trim(s) == s
  {
  }

  predicate IsSpace(s: string) {
    forall i :: 0 <= i < |s| ==> s[i] in SPACES
  }

  lemma {:induction false} TrimStartPadded(pad: string, s: string)
    requires IsSpace(pad) && (s == "" || s[0] !in SPACES)
    ensures TrimStart(pad + s) == s
    decreases |pad|
  {
    var t := pad + s;
    if pad == "" {
      assert t == s;
    } else {
      assert t[0] == pad[0] && t[1..] == pad[1..] + s;
      TrimStartPadded(pad[1..], s);
    }
  }

  lemma {:induction false} TrimEndPadded(s: string, pad: string)
    requires IsSpace(pad) && (s == "" || s[|s| - 1] !in SPACES)
    ensures TrimEnd(s + pad) == s
    decreases |pad|
  {
    var t, n := s + pad, |pad| - 1;
    if pad == "" {
      assert t == s;
    } else {
      assert t[|t| - 1] == pad[n] && t[..|t| - 1] == s + pad[..n];
      TrimEndPadded(s, pad[..n]);
    }
  }

  /** Trimming takes the spaces around a text and nothing else. */
  lemma {:induction false} TrimPadded(before: string, s: string, after: string)
    requires IsSpace(before) && IsSpace(after) && IsTidy(s)
    ensures Trim(before + s + after) == s
  {
    if s == "" {
      assert before + s + after == (before + after) + "";
      TrimStartPadded(before + after, "");
    } else {
      assert before + s + after == before + (s + after);
      TrimStartPadded(before, s + after);
      TrimEndPadded(s, after);
    }
  }

  // ----- positions

  /** The text from a position on. */
  predicate StandsAt(bytes: string, pos: nat, text: string) {
    pos <= |bytes| && bytes[pos..] == text
  }

  /** Moving past a piece that stands at a position. */
  lemma {:induction false} Past(bytes: string, pos: nat, piece: string, rest: string)
    requires StandsAt(bytes, pos, piece + rest)
    ensures StandsAt(bytes, pos + |piece|, rest)
  {
    assert bytes[pos + |piece|..] == bytes[pos..][|piece|..];
  }
}
