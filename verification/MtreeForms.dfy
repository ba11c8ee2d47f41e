/** Printed forms of a manifest and what the reader makes of them: the nested
    form, the full-path form, and the form without defaults. */
module MtreeForms {

  import opened Wrappers
  import opened Text
  import opened Mtree

  // ----- printing words

  predicate IsAlphanumeric(c: char) {
    '0' <= c <= '9' || 'A' <= c <= 'Z' || 'a' <= c <= 'z'
  }

  predicate IsBytes(s: string) {
    forall i :: 0 <= i < |s| ==> s[i] as int < 256
  }

  function OctalDigit(n: int): char
    requires 0 <= n < 8
  {
    '0' + n as char
  }

  function EscapeChar(c: char): string
    requires c as int < 256
  {
    if IsAlphanumeric(c) then [c]
    else ['\\', OctalDigit(c as int / 64), OctalDigit(c as int / 8 % 8), OctalDigit(c as int % 8)]
  }

  /** Everything but letters, digits and (in a full path) slashes becomes an
      octal triple. */
  function Escape(s: string, full: bool): string
    requires IsBytes(s)
  {
    if s == "" then ""
    else (if full && s[0] == '/' then "/" else EscapeChar(s[0])) + Escape(s[1..], full)
  }

  predicate IsSafe(c: char) {
    IsAlphanumeric(c) || c == '\\'
  }

  lemma {:induction false} EscapeIsSafe(s: string, full: bool)
    requires IsBytes(s)
    ensures |Escape(s, full)| >= |s|
    ensures forall i :: 0 <= i < |Escape(s, full)| ==>
              IsSafe(Escape(s, full)[i]) || (full && Escape(s, full)[i] == '/')
  {
    if s != "" {
      EscapeIsSafe(s[1..], full);
    }
  }

  lemma {:induction false} EscapeCharIsOctal(c: char)
    requires c as int < 256 && !IsAlphanumeric(c)
    ensures IsOctalEscape(EscapeChar(c)) && EscapedByte(EscapeChar(c)) == c
  {
    var n := c as int;
    assert n == n / 64 * 64 + n / 8 % 8 * 8 + n % 8;
  }

  lemma {:induction false} OctalWord(word: string, rest: string)
    requires IsOctalEscape(word) && |word| == 4
    ensures Unescape(word + rest) == [EscapedByte(word)] + Unescape(rest)
  {
    var all := word + rest;
    assert all[0] == word[0] && all[1] == word[1] && all[2] == word[2] && all[3] == word[3];
    assert all[4..] == rest;
  }

  lemma {:induction false} UnescapeEscapedChar(c: char, rest: string)
    requires c as int < 256
    ensures Unescape(EscapeChar(c) + rest) == [c] + Unescape(rest)
  {
    if IsAlphanumeric(c) {
      var word := EscapeChar(c) + rest;
      assert word[0] == c && word[1..] == rest;
    } else {
      EscapeCharIsOctal(c);
      OctalWord(EscapeChar(c), rest);
    }
  }

  /** Decoding undoes the printer's escaping, for every byte string. */
  lemma {:induction false} UnescapeEscape(s: string, full: bool)
    requires IsBytes(s)
    ensures Unescape(Escape(s, full)) == s
  {
    if s != "" {
      UnescapeEscape(s[1..], full);
      var rest := Escape(s[1..], full);
      if full && s[0] == '/' {
        var word := "/" + rest;
        assert word[0] == '/' && word[1..] == rest;
      } else {
        UnescapeEscapedChar(s[0], rest);
      }
    }
  }

  /** A doubled backslash stands for one exactly when something follows it. */
  lemma {:induction false} DoubledBackslashIff(rest: string)
    ensures Unescape("\\\\" + rest) == "\\" + Unescape(rest) <==> rest != ""
  {
    var word := "\\\\" + rest;
    assert word[2..] == rest;
    if rest == "" {
      assert word == "\\\\" && word[1..] == "\\" && word[1..][1..] == "";
      assert Unescape("\\") == "\\";
      assert Unescape(word) == "\\" + Unescape("\\");
      assert |Unescape(word)| == 2 && Unescape("") == "";
    } else {
      assert IsBackslashPair(word);
    }
  }

  function OctalValue(a: char, b: char, c: char): nat
    requires IsDigit(a, 8) && IsDigit(b, 8) && IsDigit(c, 8)
  {
    (a as int - '0' as int) * 64 + (b as int - '0' as int) * 8 + (c as int - '0' as int)
  }

  /** An octal triple stands for its value exactly when that fits a byte, which is
      when the first digit is at most three. */
  lemma {:induction false} OctalTripleIff(a: char, b: char, c: char, rest: string)
    requires IsDigit(a, 8) && IsDigit(b, 8) && IsDigit(c, 8)
    ensures Unescape(['\\', a, b, c] + rest) == [OctalValue(a, b, c) as char] + Unescape(rest) <==> a <= '3'
    ensures Unescape(['\\', a, b, c] + rest) == [(OctalValue(a, b, c) % 256) as char] + Unescape(rest)
  {
    var word := ['\\', a, b, c];
    OctalWord(word, rest);
    assert EscapedByte(word) == OctalByte(a, b, c);
    var x, y := [OctalByte(a, b, c)] + Unescape(rest), [OctalValue(a, b, c) as char] + Unescape(rest);
    assert x[0] == OctalByte(a, b, c) && y[0] == OctalValue(a, b, c) as char;
    assert OctalByte(a, b, c) == OctalValue(a, b, c) as char <==> OctalValue(a, b, c) < 256;
  }

  /** The words at which decoding stops short of what its description promises. */
  lemma {:induction false} EscapeLimits()
    ensures Unescape("\\\\") == "\\\\"
    ensures Unescape("\\400") == Unescape("\\000")
  {
    assert "\\\\"[1..] == "\\" && "\\"[1..] == "";
    OctalTripleIff('4', '0', '0', "");
    OctalTripleIff('0', '0', '0', "");
    assert ['\\', '4', '0', '0'] + "" == "\\400" && ['\\', '0', '0', '0'] + "" == "\\000";
  }

  // ----- printing keywords

  predicate Printable(word: string) {
    word != "" && Free(word, BLANKS + {'\n'})
  }

  /** The keywords of a record, one word each. */
  function KeywordWords(k: Keywords): seq<string> {
    (if k.fileType.Some? then ["type=" + TypeName(k.fileType.value)] else [])
    + (if k.size.Some? then ["size=" + Decimal(k.size.value)] else [])
    + (if k.link.Some? then ["link=" + k.link.value] else [])
  }

  predicate Explicable(k: Keywords) {
    && (k.size.Some? ==> k.size.value < U64_LIMIT)
    && (k.link.Some? ==> Free(k.link.value, BLANKS + {'\n'}))
  }

  lemma {:induction false} KeyLengthOf(key: string, value: string)
    requires '=' !in key
    ensures SplitKeyword(key + "=" + value) == (key, Some(value))
  {
    var word := key + "=" + value;
    var n := KeyLength(word);
    assert word[|key|] == '=';
    assert forall i :: 0 <= i < |key| ==> word[i] == key[i];
    assert word[..|key|] == key && word[|key| + 1..] == value;
  }

  lemma {:induction false} ApplyPrintedType(k: Keywords, t: FileType)
    ensures ApplyKeyword(k, "type=" + TypeName(t)) == Ok(k.(fileType := Some(t)))
  {
    KeyLengthOf("type", TypeName(t));
    assert "type" + "=" == "type=";
  }

  lemma {:induction false} ApplyPrintedSize(k: Keywords, n: nat)
    requires n < U64_LIMIT
    ensures ApplyKeyword(k, "size=" + Decimal(n)) == Ok(k.(size := Some(n)))
  {
    KeyLengthOf("size", Decimal(n));
    assert "size" + "=" == "size=";
    ParseDecimal(n);
  }

  lemma {:induction false} ApplyPrintedLink(k: Keywords, raw: string)
    ensures ApplyKeyword(k, "link=" + raw) == Ok(k.(link := Some(raw)))
  {
    KeyLengthOf("link", raw);
    assert "link" + "=" == "link=";
  }

  lemma {:induction false} ApplyAppend(k: Keywords, a: seq<string>, b: seq<string>)
    ensures var first := ApplyKeywords(k, a);
            ApplyKeywords(k, a + b) == if first.Err? then first else ApplyKeywords(first.value, b)
    decreases |a|
  {
    if a == [] {
      assert a + b == b;
    } else {
      assert (a + b)[0] == a[0] && (a + b)[1..] == a[1..] + b;
      match ApplyKeyword(k, a[0])
      case Err(_) =>
      case Ok(next) => ApplyAppend(next, a[1..], b);
    }
  }

  lemma {:induction false} ApplySingle(k: Keywords, word: string)
    ensures ApplyKeywords(k, [word]) == ApplyKeyword(k, word)
  {
    assert [word][1..] == [];
    match ApplyKeyword(k, word)
    case Err(_) =>
    case Ok(next) => assert ApplyKeywords(next, []) == Ok(next);
  }

  /** Reading printed keywords gives the keywords. */
  lemma {:induction false} ApplyPrinted(k: Keywords)
    requires Explicable(k)
    ensures ApplyKeywords(NOTHING, KeywordWords(k)) == Ok(k)
  {
    var a := if k.fileType.Some? then ["type=" + TypeName(k.fileType.value)] else [];
    var b := if k.size.Some? then ["size=" + Decimal(k.size.value)] else [];
    var c := if k.link.Some? then ["link=" + k.link.value] else [];
    var ka := NOTHING.(fileType := k.fileType);
    var kb := ka.(size := k.size);
    ApplyAppend(NOTHING, a + b, c);
    ApplyAppend(NOTHING, a, b);
    if k.fileType.Some? {
      ApplyPrintedType(NOTHING, k.fileType.value);
      ApplySingle(NOTHING, a[0]);
    }
    if k.size.Some? {
      ApplyPrintedSize(ka, k.size.value);
      ApplySingle(ka, b[0]);
    }
    if k.link.Some? {
      ApplyPrintedLink(kb, k.link.value);
      ApplySingle(kb, c[0]);
    }
  }

  lemma {:induction false} NumeralIsFree(n: nat)
    ensures Free(Decimal(n), BLANKS + {'\n'})
  {
    var s := Decimal(n);
    forall i | 0 <= i < |s| ensures s[i] !in BLANKS + {'\n'} {
      assert IsDigit(s[i], 10);
    }
  }

  lemma {:induction false} KeywordWordsArePrintable(k: Keywords)
    requires Explicable(k)
    ensures forall i :: 0 <= i < |KeywordWords(k)| ==> Printable(KeywordWords(k)[i])
  {
    if k.size.Some? {
      NumeralIsFree(k.size.value);
    }
  }

  // ----- printing lines

  function Line(first: string, k: Keywords): string {
    Join([first] + KeywordWords(k), ' ')
  }

  lemma {:induction false} JoinIsFree(words: seq<string>, c: char, others: set<char>)
    requires c !in others && forall i :: 0 <= i < |words| ==> Free(words[i], others)
    ensures Free(Join(words, c), others)
    decreases |words|
  {
    if |words| > 1 {
      JoinIsFree(words[1..], c, others);
    }
  }

  lemma {:induction false} WordsOfLine(first: string, k: Keywords)
    requires Printable(first) && Explicable(k)
    ensures Words(Line(first, k)) == [first] + KeywordWords(k)
    ensures Free(Line(first, k), {'\n'})
  {
    var words := [first] + KeywordWords(k);
    KeywordWordsArePrintable(k);
    assert forall i :: 0 <= i < |words| ==> Printable(words[i]);
    SplitJoin(words, ' ', BLANKS);
    NonEmptyKeeps(words);
    JoinIsFree(words, ' ', {'\n'});
  }

  /** A record line with every keyword spelled out, read without defaults. */
  lemma {:induction false} StepExplicit(s: Parser, first: string, k: Keywords)
    requires s.defaults == NOTHING && Printable(first) && Explicable(k)
    requires first[0] != '#' && first[0] != '/' && first != ".."
    ensures Step(s, Words(Line(first, k))) == Ok(AddRecord(s, first, k))
  {
    WordsOfLine(first, k);
    var words := [first] + KeywordWords(k);
    assert words[1..] == KeywordWords(k);
    ApplyPrinted(k);
    assert "/set"[0] == '/' && "/unset"[0] == '/';
  }

  // ----- the nested form

  datatype Entry =
    | Leaf(name: string, fileType: Option<FileType>, size: Option<nat>, link: Option<string>)
    | Folder(name: string, size: Option<nat>, link: Option<string>, children: seq<Entry>)

  function TypeOf(e: Entry): Option<FileType> {
    if e.Folder? then Some(Directory) else e.fileType
  }

  predicate ValidEntry(e: Entry) {
    && e.name != "" && IsBytes(e.name)
    && (e.size.Some? ==> e.size.value < U64_LIMIT)
    && (e.link.Some? ==> IsBytes(e.link.value))
    && (e.Leaf? ==> e.fileType != Some(Directory))
    && (e.Folder? ==> ValidForest(e.children))
  }

  predicate ValidForest(forest: seq<Entry>) {
    forall i :: 0 <= i < |forest| ==> ValidEntry(forest[i])
  }

  function EscapedLink(link: Option<string>): Option<string>
    requires link.Some? ==> IsBytes(link.value)
  {
    match link
    case None => None
    case Some(target) => Some(Escape(target, true))
  }

  function KeywordsOf(t: Option<FileType>, size: Option<nat>, link: Option<string>): Keywords
    requires link.Some? ==> IsBytes(link.value)
  {
    Keywords(t, size, EscapedLink(link))
  }

  /** A folder's line, its children, and the line that closes it.  The tree root
      `.` adds no path component, so nothing closes it. */
  function PrintEntry(e: Entry): seq<string>
    requires ValidEntry(e)
  {
    [Line(Escape(e.name, false), KeywordsOf(TypeOf(e), e.size, e.link))]
    + if e.Folder? then PrintForest(e.children) + (if e.name == "." then [] else [".."]) else []
  }

  function PrintForest(forest: seq<Entry>): seq<string>
    requires ValidForest(forest)
  {
    if forest == [] then [] else PrintEntry(forest[0]) + PrintForest(forest[1..])
  }

  /** The records of an entry in preorder, with full paths. */
  function EntryRecords(e: Entry, prefix: string): seq<Record> {
    [Record(prefix + e.name, TypeOf(e), e.size, e.link)]
    + if e.Folder? then Preorder(e.children, if e.name == "." then prefix else prefix + e.name + "/") else []
  }

  function Preorder(forest: seq<Entry>, prefix: string): seq<Record> {
    if forest == [] then [] else EntryRecords(forest[0], prefix) + Preorder(forest[1..], prefix)
  }

  lemma {:induction false} EscapedIsPrintable(s: string, full: bool)
    requires IsBytes(s)
    ensures Free(Escape(s, full), BLANKS + {'\n', '#', '.'})
    ensures !full ==> '/' !in Escape(s, full)
    ensures s != "" ==> Escape(s, full) != ""
  {
    EscapeIsSafe(s, full);
  }

  lemma {:induction false} PrintedKeywords(t: Option<FileType>, size: Option<nat>, link: Option<string>)
    requires link.Some? ==> IsBytes(link.value)
    requires size.Some? ==> size.value < U64_LIMIT
    ensures Explicable(KeywordsOf(t, size, link))
    ensures DecodedLink(KeywordsOf(t, size, link).link) == link
  {
    if link.Some? {
      EscapedIsPrintable(link.value, true);
      UnescapeEscape(link.value, true);
    }
  }

  lemma {:induction false} StepEntry(s: Parser, e: Entry)
    requires s.defaults == NOTHING && ValidEntry(e)
    ensures var record := Record(Prefix(s.stack) + e.name, TypeOf(e), e.size, e.link);
            var stack := if e.Folder? && e.name != "." then s.stack + [e.name] else s.stack;
            Step(s, Words(PrintEntry(e)[0])) == Ok(Parser(NOTHING, stack, s.records + [record]))
  {
    var first := Escape(e.name, false);
    EscapedIsPrintable(e.name, false);
    UnescapeEscape(e.name, false);
    PrintedKeywords(TypeOf(e), e.size, e.link);
    assert Printable(first);
    assert first[0] !in {'#', '.'} && first[0] in first;
    StepExplicit(s, first, KeywordsOf(TypeOf(e), e.size, e.link));
  }

  lemma {:induction false} WordsClose(s: Parser)
    ensures Step(s, Words("..")) == Ok(if s.stack == [] then s else s.(stack := s.stack[..|s.stack| - 1]))
  {
    SplitFree("..", BLANKS);
    NonEmptyKeeps([".."]);
  }

  /** Reading `lines` takes the reader from `s` to `t`, wherever they stand. */
  ghost predicate Reads(s: Parser, lines: seq<string>, t: Parser) {
    forall number: nat :: Run(s, lines, number) == Ok(t)
  }

  lemma {:induction false} ReadsNothing(s: Parser)
    ensures Reads(s, [], s)
  {
  }

  lemma {:induction false} ReadsLine(s: Parser, line: string, t: Parser)
    requires Step(s, Words(line)) == Ok(t)
    ensures Reads(s, [line], t)
  {
    assert [line][1..] == [];
    forall number: nat ensures Run(s, [line], number) == Ok(t) {
      assert Run(t, [], number + 1) == Ok(t);
    }
  }

  lemma {:induction false} ReadsBoth(s: Parser, a: seq<string>, mid: Parser, b: seq<string>, t: Parser, lines: seq<string>)
    requires Reads(s, a, mid) && Reads(mid, b, t) && lines == a + b
    ensures Reads(s, lines, t)
  {
    forall number: nat ensures Run(s, lines, number) == Ok(t) {
      RunAppend(s, a, b, number);
      assert Run(s, a, number) == Ok(mid);
    }
  }

  function Extend(s: Parser, records: seq<Record>): Parser {
    s.(records := s.records + records)
  }

  /** Reading a printed entry appends its records and leaves the directory
      stack as it was. */
  lemma {:induction false} ReadsEntry(s: Parser, e: Entry)
    requires s.defaults == NOTHING && ValidEntry(e)
    ensures Reads(s, PrintEntry(e), Extend(s, EntryRecords(e, Prefix(s.stack))))
    decreases e, 1
  {
    StepEntry(s, e);
    if e.Leaf? {
      assert PrintEntry(e) == [PrintEntry(e)[0]];
      assert EntryRecords(e, Prefix(s.stack)) == [Record(Prefix(s.stack) + e.name, TypeOf(e), e.size, e.link)];
      ReadsLine(s, PrintEntry(e)[0], Extend(s, EntryRecords(e, Prefix(s.stack))));
    } else {
      ReadsForest(Inside(s, e), e.children);
      ReadsFolder(s, e);
    }
  }

  /** The reader just after a folder's own line. */
  function Inside(s: Parser, e: Entry): Parser {
    Parser(
      s.defaults,
      if e.name == "." then s.stack else s.stack + [e.name],
      s.records + [Record(Prefix(s.stack) + e.name, TypeOf(e), e.size, e.link)])
  }

  lemma {:induction false} OpensFolder(s: Parser, e: Entry)
    requires s.defaults == NOTHING && ValidEntry(e) && e.Folder?
    ensures Reads(s, [PrintEntry(e)[0]], Inside(s, e))
  {
    StepEntry(s, e);
    ReadsLine(s, PrintEntry(e)[0], Inside(s, e));
  }

  lemma {:induction false} ClosesFolder(s: Parser, stack: seq<string>, name: string)
    requires s.stack == stack + [name]
    ensures Reads(s, [".."], s.(stack := stack))
  {
    WordsClose(s);
    assert s.stack[..|s.stack| - 1] == stack;
    ReadsLine(s, "..", s.(stack := stack));
  }

  /** The records of a folder, and the reader when its children are read. */
  lemma {:induction false} FolderRecords(s: Parser, e: Entry)
    requires e.Folder?
    ensures var inner := Inside(s, e);
            Extend(inner, Preorder(e.children, Prefix(inner.stack))).(stack := s.stack) ==
            Extend(s, EntryRecords(e, Prefix(s.stack)))
  {
    PrefixAppend(s.stack, e.name);
    var inner := Inside(s, e);
    var record := Record(Prefix(s.stack) + e.name, TypeOf(e), e.size, e.link);
    var below := Preorder(e.children, Prefix(inner.stack));
    assert EntryRecords(e, Prefix(s.stack)) == [record] + below;
    assert s.records + ([record] + below) == (s.records + [record]) + below;
  }

  lemma {:induction false} ReadsFolder(s: Parser, e: Entry)
    requires s.defaults == NOTHING && ValidEntry(e) && e.Folder?
    requires var inner := Inside(s, e);
             Reads(inner, PrintForest(e.children), Extend(inner, Preorder(e.children, Prefix(inner.stack))))
    ensures Reads(s, PrintEntry(e), Extend(s, EntryRecords(e, Prefix(s.stack))))
  {
    var inner, line, body := Inside(s, e), PrintEntry(e)[0], PrintForest(e.children);
    var full := Extend(inner, Preorder(e.children, Prefix(inner.stack)));
    var done := Extend(s, EntryRecords(e, Prefix(s.stack)));
    OpensFolder(s, e);
    FolderRecords(s, e);
    FolderLines(e);
    if e.name == "." {
      ReadsBoth(s, [line], inner, body, full, PrintEntry(e));
    } else {
      ReadsBoth(s, [line], inner, body, full, [line] + body);
      ClosesFolder(full, s.stack, e.name);
      ReadsBoth(s, [line] + body, full, [".."], done, PrintEntry(e));
    }
  }

  lemma {:induction false} FolderLines(e: Entry)
    requires ValidEntry(e) && e.Folder?
    ensures var line, body := PrintEntry(e)[0], PrintForest(e.children);
            PrintEntry(e) == if e.name == "." then [line] + body else [line] + body + [".."]
  {
  }

  lemma {:induction false} ReadsForest(s: Parser, forest: seq<Entry>)
    requires s.defaults == NOTHING && ValidForest(forest)
    ensures Reads(s, PrintForest(forest), Extend(s, Preorder(forest, Prefix(s.stack))))
    decreases forest, 0
  {
    if forest == [] {
      ReadsNothing(s);
      assert Extend(s, []) == s;
    } else {
      var a, b := EntryRecords(forest[0], Prefix(s.stack)), Preorder(forest[1..], Prefix(s.stack));
      var t := Extend(s, Preorder(forest, Prefix(s.stack)));
      ReadsEntry(s, forest[0]);
      ReadsForest(Extend(s, a), forest[1..]);
      assert Extend(Extend(s, a), b) == t by {
        assert (s.records + a) + b == s.records + (a + b);
      }
      ReadsBoth(s, PrintEntry(forest[0]), Extend(s, a), PrintForest(forest[1..]), t, PrintForest(forest));
    }
  }

  // ----- whole manifests

  predicate OneLiners(lines: seq<string>) {
    forall i :: 0 <= i < |lines| ==> Free(lines[i], {'\n'})
  }

  lemma {:induction false} PrintedEntryLines(e: Entry)
    requires ValidEntry(e)
    ensures OneLiners(PrintEntry(e))
    decreases e, 1
  {
    var line := PrintEntry(e)[0];
    EscapedIsPrintable(e.name, false);
    PrintedKeywords(TypeOf(e), e.size, e.link);
    WordsOfLine(Escape(e.name, false), KeywordsOf(TypeOf(e), e.size, e.link));
    assert OneLiners([line]);
    if e.Folder? {
      PrintedLines(e.children);
      assert OneLiners([line] + PrintForest(e.children)) && OneLiners([".."]);
    }
  }

  lemma {:induction false} PrintedLines(forest: seq<Entry>)
    requires ValidForest(forest)
    ensures OneLiners(PrintForest(forest))
    decreases forest, 0
  {
    if forest != [] {
      PrintedEntryLines(forest[0]);
      PrintedLines(forest[1..]);
    }
  }

  lemma {:induction false} ManifestOfLines(lines: seq<string>, records: seq<Record>)
    requires OneLiners(lines) && Reads(START, lines, Extend(START, records))
    ensures Manifest(Join(lines + [""], '\n')) == Ok(records)
  {
    var all := lines + [""];
    var t := Extend(START, records);
    SplitJoin(all, '\n', {'\n'});
    WordsEmpty(t);
    ReadsBoth(START, lines, t, [""], t, all);
    assert Run(START, all, 1) == Ok(t);
    assert [] + records == records;
  }

  /** The nested form of a forest, each line ended by a newline. */
  function PrintNested(forest: seq<Entry>): string
    requires ValidForest(forest)
  {
    Join(PrintForest(forest) + [""], '\n')
  }

  lemma {:induction false} WordsEmpty(s: Parser)
    ensures Reads(s, [""], s)
  {
    assert [""][1..] == [];
    ReadsLine(s, "", s);
  }

  /** Reading the nested form of any forest gives its records in preorder, with
      full paths, types, sizes and links. */
  lemma {:induction false} NestedRoundTrip(forest: seq<Entry>)
    requires ValidForest(forest)
    ensures Manifest(PrintNested(forest)) == Ok(Preorder(forest, ""))
  {
    ReadsForest(START, forest);
    PrintedLines(forest);
    ManifestOfLines(PrintForest(forest), Preorder(forest, ""));
  }

  // ----- the full-path form

  predicate ValidRecord(r: Record) {
    && IsBytes(r.path)
    && (r.size.Some? ==> r.size.value < U64_LIMIT)
    && (r.link.Some? ==> IsBytes(r.link.value))
  }

  predicate ValidRecords(records: seq<Record>) {
    forall i :: 0 <= i < |records| ==> ValidRecord(records[i])
  }

  function FullLine(r: Record): string
    requires ValidRecord(r)
  {
    Line("./" + Escape(r.path, true), KeywordsOf(r.fileType, r.size, r.link))
  }

  function FullLines(records: seq<Record>): (lines: seq<string>)
    requires ValidRecords(records)
  {
    if records == [] then [] else [FullLine(records[0])] + FullLines(records[1..])
  }

  /** The same record under a path with a leading `./`. */
  function Dotted(r: Record): Record {
    r.(path := "./" + r.path)
  }

  function AllDotted(records: seq<Record>): seq<Record> {
    if records == [] then [] else [Dotted(records[0])] + AllDotted(records[1..])
  }

  lemma {:induction false} UnescapeDotted(path: string)
    requires IsBytes(path)
    ensures Unescape("./" + Escape(path, true)) == "./" + path
  {
    var escaped := Escape(path, true);
    UnescapeEscape(path, true);
    assert ("./" + escaped)[1..] == "/" + escaped && ("/" + escaped)[1..] == escaped;
    assert Unescape("/" + escaped) == "/" + path;
  }

  lemma {:induction false} StepFull(s: Parser, r: Record)
    requires s.defaults == NOTHING && ValidRecord(r)
    ensures Step(s, Words(FullLine(r))) == Ok(Extend(s, [Dotted(r)]))
    ensures Free(FullLine(r), {'\n'})
  {
    var escaped := Escape(r.path, true);
    var first := "./" + escaped;
    EscapedIsPrintable(r.path, true);
    UnescapeDotted(r.path);
    assert first[1] == '/' && first[0] == '.';
    PrintedKeywords(r.fileType, r.size, r.link);
    assert Printable(first);
    StepExplicit(s, first, KeywordsOf(r.fileType, r.size, r.link));
    WordsOfLine(first, KeywordsOf(r.fileType, r.size, r.link));
  }

  lemma {:induction false} ReadsFull(s: Parser, records: seq<Record>)
    requires s.defaults == NOTHING
    requires ValidRecords(records)
    ensures Reads(s, FullLines(records), Extend(s, AllDotted(records)))
    ensures OneLiners(FullLines(records))
    decreases |records|
  {
    if records == [] {
      ReadsNothing(s);
      assert Extend(s, []) == s;
    } else {
      var next, t := Extend(s, [Dotted(records[0])]), Extend(s, AllDotted(records));
      FirstFull(s, records[0]);
      ReadsFull(next, records[1..]);
      assert Extend(next, AllDotted(records[1..])) == t by {
        assert (s.records + [Dotted(records[0])]) + AllDotted(records[1..]) == s.records + AllDotted(records);
      }
      ReadsBoth(s, [FullLine(records[0])], next, FullLines(records[1..]), t, FullLines(records));
    }
  }

  lemma {:induction false} FirstFull(s: Parser, r: Record)
    requires s.defaults == NOTHING && ValidRecord(r)
    ensures Reads(s, [FullLine(r)], Extend(s, [Dotted(r)])) && OneLiners([FullLine(r)])
  {
    StepFull(s, r);
    ReadsLine(s, FullLine(r), Extend(s, [Dotted(r)]));
  }

  function PrintFull(records: seq<Record>): string
    requires ValidRecords(records)
  {
    Join(FullLines(records) + [""], '\n')
  }

  /** Reading the full-path form of any records gives them back, each path with
      its leading `./`; directories do not disturb the paths after them. */
  lemma {:induction false} FullRoundTrip(records: seq<Record>)
    requires ValidRecords(records)
    ensures Manifest(PrintFull(records)) == Ok(AllDotted(records))
  {
    ReadsFull(START, records);
    ManifestOfLines(FullLines(records), AllDotted(records));
  }

  lemma {:induction false} EntryRecordsAreValid(e: Entry, prefix: string)
    requires ValidEntry(e) && IsBytes(prefix)
    ensures ValidRecords(EntryRecords(e, prefix))
    decreases e, 1
  {
    var record := EntryRecords(e, prefix)[0];
    assert ValidRecords([record]);
    if e.Folder? {
      PreorderIsValid(e.children, if e.name == "." then prefix else prefix + e.name + "/");
    }
  }

  lemma {:induction false} PreorderIsValid(forest: seq<Entry>, prefix: string)
    requires ValidForest(forest) && IsBytes(prefix)
    ensures ValidRecords(Preorder(forest, prefix))
    decreases forest, 0
  {
    if forest != [] {
      EntryRecordsAreValid(forest[0], prefix);
      PreorderIsValid(forest[1..], prefix);
    }
  }

  /** The two forms of one forest read alike, up to the leading `./`. */
  lemma {:induction false} FormsAgree(forest: seq<Entry>)
    requires ValidForest(forest)
    ensures Manifest(PrintNested(forest)).Ok?
    ensures var records := Manifest(PrintNested(forest)).value;
            && ValidRecords(records)
            && Manifest(PrintFull(records)) == Ok(AllDotted(records))
  {
    NestedRoundTrip(forest);
    PreorderIsValid(forest, "");
    FullRoundTrip(Preorder(forest, ""));
  }

  /** A closing line after the root `.` inside a directory closes that directory
      instead, so that the next bare name loses a component. */
  lemma {:induction false} ClosingRootClosesParent(s: Parser)
    requires s.defaults == NOTHING && s.stack != []
    ensures var root := Folder(".", None, None, []);
            && ValidEntry(root)
            && Reads(s, PrintEntry(root) + [".."],
                     Extend(s, EntryRecords(root, Prefix(s.stack))).(stack := s.stack[..|s.stack| - 1]))
  {
    var root := Folder(".", None, None, []);
    var mid := Extend(s, EntryRecords(root, Prefix(s.stack)));
    ReadsEntry(s, root);
    WordsClose(mid);
    ReadsLine(mid, "..", mid.(stack := s.stack[..|s.stack| - 1]));
    ReadsBoth(s, PrintEntry(root), mid, [".."], mid.(stack := s.stack[..|s.stack| - 1]), PrintEntry(root) + [".."]);
  }

  // ----- the form without defaults

  /** The manifest with every `/set` and `/unset` line blanked and every record
      carrying its effective keywords; `defaults` are in force at the start.
      From the first line in error on, nothing is changed. */
  function ExplicitLines(defaults: Keywords, lines: seq<string>): seq<string>
    decreases |lines|
  {
    if lines == [] then []
    else
      var words := Words(lines[0]);
      if words == [] || words[0] == "" || words[0][0] == '#' || words[0] == ".." then
        [lines[0]] + ExplicitLines(defaults, lines[1..])
      else if words[0] == "/set" then
        match ApplyKeywords(defaults, words[1..])
        case Err(_) => lines
        case Ok(d) => [""] + ExplicitLines(d, lines[1..])
      else if words[0] == "/unset" then [""] + ExplicitLines(Unset(defaults, words[1..]), lines[1..])
      else if words[0][0] == '/' then lines
      else
        match ApplyKeywords(defaults, words[1..])
        case Err(_) => lines
        case Ok(k) => [Line(words[0], k)] + ExplicitLines(defaults, lines[1..])
  }

  function ExplicitManifest(bytes: string): string {
    Join(ExplicitLines(NOTHING, Split(bytes, {'\n'})), '\n')
  }

  predicate IsDirective(line: string) {
    Words(line) != [] && Words(line)[0] in {"/set", "/unset"}
  }

  lemma {:induction false} ErrorsIgnoreDefaults(a: Keywords, b: Keywords, words: seq<string>)
    requires ApplyKeywords(a, words).Err?
    ensures ApplyKeywords(b, words) == ApplyKeywords(a, words)
    decreases |words|
  {
    var x, y := ApplyKeyword(a, words[0]), ApplyKeyword(b, words[0]);
    if x.Ok? {
      ErrorsIgnoreDefaults(x.value, y.value, words[1..]);
    }
  }

  lemma {:induction false} ApplyKeepsExplicable(k: Keywords, word: string)
    requires Explicable(k) && Free(word, BLANKS + {'\n'}) && ApplyKeyword(k, word).Ok?
    ensures Explicable(ApplyKeyword(k, word).value)
  {
    var n := KeyLength(word);
    assert n < |word| ==> Free(word[n + 1..], BLANKS + {'\n'});
  }

  lemma {:induction false} ApplyAllKeepsExplicable(k: Keywords, words: seq<string>)
    requires Explicable(k) && ApplyKeywords(k, words).Ok?
    requires forall i :: 0 <= i < |words| ==> Free(words[i], BLANKS + {'\n'})
    ensures Explicable(ApplyKeywords(k, words).value)
    decreases |words|
  {
    if words != [] {
      ApplyKeepsExplicable(k, words[0]);
      ApplyAllKeepsExplicable(ApplyKeyword(k, words[0]).value, words[1..]);
    }
  }

  lemma {:induction false} UnsetKeepsExplicable(k: Keywords, words: seq<string>)
    requires Explicable(k)
    ensures Explicable(Unset(k, words))
    decreases |words|
  {
    if words != [] {
      UnsetKeepsExplicable(UnsetOne(k, words[0]), words[1..]);
    }
  }

  /** What a run reports: the records, or the error. */
  function Report(r: Result<Parser, ParseError>): Result<seq<Record>, ParseError> {
    match r
    case Err(e) => Err(e)
    case Ok(s) => Ok(s.records)
  }

  function Bare(s: Parser): Parser {
    s.(defaults := NOTHING)
  }

  /** A line that stops the reader stops it alike without the defaults. */
  lemma {:induction false} ErrorWithoutDefaults(s: Parser, words: seq<string>)
    requires Step(s, words).Err?
    ensures Step(Bare(s), words) == Step(s, words)
  {
    if words[0] == "/set" || words[0][0] != '/' {
      ErrorsIgnoreDefaults(s.defaults, NOTHING, words[1..]);
    }
  }

  lemma {:induction false} ExplicitRun(s: Parser, lines: seq<string>, number: nat)
    requires OneLiners(lines) && Explicable(s.defaults)
    ensures Report(Run(Bare(s), ExplicitLines(s.defaults, lines), number)) == Report(Run(s, lines, number))
    decreases |lines|
  {
    if lines != [] {
      var words, rest := Words(lines[0]), lines[1..];
      WordsAreWords(lines[0]);
      if Step(s, words).Err? {
        ErrorWithoutDefaults(s, words);
        assert ExplicitLines(s.defaults, lines) == lines;
      } else {
        var next := Step(s, words).value;
        NextIsExplicable(s, lines[0]);
        ExplicitRun(next, rest, number + 1);
        var line := ExplicitLines(s.defaults, lines)[0];
        ExplicitStep(s, lines);
        assert ExplicitLines(s.defaults, lines)[1..] == ExplicitLines(next.defaults, rest);
      }
    }
  }

  lemma {:induction false} NextIsExplicable(s: Parser, line: string)
    requires Free(line, {'\n'}) && Explicable(s.defaults) && Step(s, Words(line)).Ok?
    ensures Explicable(Step(s, Words(line)).value.defaults)
  {
    var words := Words(line);
    WordsAreWords(line);
    if words != [] && words[0] == "/set" {
      ApplyAllKeepsExplicable(s.defaults, words[1..]);
    } else if words != [] && words[0] == "/unset" {
      UnsetKeepsExplicable(s.defaults, words[1..]);
    }
  }

  /** The first explicit line moves the reader without defaults as the original
      line moves the reader with them. */
  lemma {:induction false} ExplicitStep(s: Parser, lines: seq<string>)
    requires lines != [] && OneLiners(lines) && Explicable(s.defaults) && Step(s, Words(lines[0])).Ok?
    ensures var next := Step(s, Words(lines[0])).value;
            var explicit := ExplicitLines(s.defaults, lines);
            && explicit != [] && explicit[1..] == ExplicitLines(next.defaults, lines[1..])
            && Step(Bare(s), Words(explicit[0])) == Ok(Bare(next))
            && Free(explicit[0], {'\n'}) && !IsDirective(explicit[0])
  {
    var words := Words(lines[0]);
    WordsAreWords(lines[0]);
    assert Free(lines[0], {'\n'});
    if words == [] || words[0][0] == '#' || words[0] == ".." {
      assert ExplicitLines(s.defaults, lines) == [lines[0]] + ExplicitLines(s.defaults, lines[1..]);
    } else if words[0] == "/set" || words[0] == "/unset" {
      assert [""][1..] == [];
      assert Words("") == [];
    } else {
      assert words[0][0] != '/';
      ApplyAllKeepsExplicable(s.defaults, words[1..]);
      var k := ApplyKeywords(s.defaults, words[1..]).value;
      assert Printable(words[0]);
      WordsOfLine(words[0], k);
      StepExplicit(Bare(s), words[0], k);
    }
  }

  lemma {:induction false} ExplicitLinesAreLines(s: Parser, lines: seq<string>, number: nat)
    requires OneLiners(lines) && Explicable(s.defaults)
    ensures OneLiners(ExplicitLines(s.defaults, lines))
    ensures |ExplicitLines(s.defaults, lines)| == |lines|
    ensures Run(s, lines, number).Ok? ==>
              forall i :: 0 <= i < |lines| ==> !IsDirective(ExplicitLines(s.defaults, lines)[i])
    decreases |lines|
  {
    if lines != [] {
      WordsAreWords(lines[0]);
      if Step(s, Words(lines[0])).Err? {
        assert ExplicitLines(s.defaults, lines) == lines;
      } else {
        NextIsExplicable(s, lines[0]);
        ExplicitStep(s, lines);
        var next := Step(s, Words(lines[0])).value;
        ExplicitLinesAreLines(next, lines[1..], number + 1);
        var explicit := ExplicitLines(s.defaults, lines);
        assert explicit == [explicit[0]] + ExplicitLines(next.defaults, lines[1..]);
      }
    }
  }

  /** Spelling the defaults out changes nothing: every manifest reads to the same
      records, or fails with the same error on the same line, and a manifest
      that reads is left without `/set` and `/unset`. */
  lemma {:induction false} DefaultElimination(bytes: string)
    ensures Manifest(ExplicitManifest(bytes)) == Manifest(bytes)
    ensures Manifest(bytes).Ok? ==>
              forall line :: line in Split(ExplicitManifest(bytes), {'\n'}) ==> !IsDirective(line)
  {
    var lines := Split(bytes, {'\n'});
    assert Free(bytes, {});
    PiecesAreFree(bytes, {'\n'}, {});
    assert {'\n'} + {} == {'\n'};
    ExplicitLinesAreLines(START, lines, 1);
    SplitJoin(ExplicitLines(NOTHING, lines), '\n', {'\n'});
    ExplicitRun(START, lines, 1);
  }
}
