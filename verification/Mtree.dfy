/** The MTREE manifest reader: words, keywords, `/set` defaults and the
    directory stack. */
module Mtree {

  import opened Wrappers
  import opened Text

  datatype FileType = BlockDevice | CharacterDevice | Directory | Fifo | File | SymbolicLink | Socket

  /** The keywords the reader surfaces; `link` is still escaped. */
  datatype Keywords = Keywords(fileType: Option<FileType>, size: Option<nat>, link: Option<string>)

  datatype Record = Record(path: string, fileType: Option<FileType>, size: Option<nat>, link: Option<string>)

  datatype Problem = UnknownDirective(name: string) | InvalidType(value: string) | InvalidSize(value: string)

  datatype ParseError = ParseError(line: nat, problem: Problem)

  const BLANKS: set<char> := {' ', '\t', '\r'}
  const NOTHING := Keywords(None, None, None)

  // ----- words

  function TypeName(t: FileType): string {
    match t
    case BlockDevice => "block"
    case CharacterDevice => "char"
    case Directory => "dir"
    case Fifo => "fifo"
    case File => "file"
    case SymbolicLink => "link"
    case Socket => "socket"
  }

  function ParseType(value: string): Option<FileType> {
    match value
    case "block" => Some(BlockDevice)
    case "char" => Some(CharacterDevice)
    case "dir" => Some(Directory)
    case "fifo" => Some(Fifo)
    case "file" => Some(File)
    case "link" => Some(SymbolicLink)
    case "socket" => Some(Socket)
    case _ => None
  }

  function Words(line: string): seq<string> {
    NonEmpty(Split(line, BLANKS))
  }

  predicate IsOctalEscape(word: string) {
    && |word| >= 4 && word[0] == '\\'
    && IsDigit(word[1], 8) && IsDigit(word[2], 8) && IsDigit(word[3], 8)
  }

  /** The byte three octal digits stand for, in eight-bit arithmetic. */
  function OctalByte(a: char, b: char, c: char): char
    requires IsDigit(a, 8) && IsDigit(b, 8) && IsDigit(c, 8)
  {
    (((a as int - '0' as int) * 64 + (b as int - '0' as int) * 8 + (c as int - '0' as int)) % 256) as char
  }

  function EscapedByte(word: string): char
    requires IsOctalEscape(word)
  {
    OctalByte(word[1], word[2], word[3])
  }

  /** A doubled backslash needs a further character after it to be decoded. */
  predicate IsBackslashPair(word: string) {
    |word| >= 3 && word[0] == '\\' && word[1] == '\\'
  }

  function Unescape(word: string): string {
    if word == "" then ""
    else if IsBackslashPair(word) then ['\\'] + Unescape(word[2..])
    else if IsOctalEscape(word) then [EscapedByte(word)] + Unescape(word[4..])
    else [word[0]] + Unescape(word[1..])
  }

  /** How many characters at a position the next decoded byte takes up. */
  function Taken(word: string, i: nat): (n: nat)
    requires i < |word|
    ensures 0 < n <= |word| - i
  {
    if i + 2 < |word| && word[i] == '\\' && word[i + 1] == '\\' then 2
    else if i + 3 < |word| && IsOctalEscape(word[i..i + 4]) then 4
    else 1
  }

  function Decoded(word: string, i: nat): char
    requires i < |word|
  {
    if Taken(word, i) == 4 then EscapedByte(word[i..i + 4]) else word[i]
  }

  lemma {:induction false} UnescapeFrom(word: string, i: nat)
    requires i < |word|
    ensures Unescape(word[i..]) == [Decoded(word, i)] + Unescape(word[i + Taken(word, i)..])
  {
    var rest, n := word[i..], Taken(word, i);
    assert rest[n..] == word[i + n..];
    assert i + 3 < |word| ==> rest[1] == word[i..i + 4][1] && rest[2] == word[i..i + 4][2] && rest[3] == word[i..i + 4][3];
  }

  lemma {:induction false} DecodeStep(word: string, out: string, i: nat)
    requires i < |word| && out + Unescape(word[i..]) == Unescape(word)
    ensures (out + [Decoded(word, i)]) + Unescape(word[i + Taken(word, i)..]) == Unescape(word)
  {
    UnescapeFrom(word, i);
    var rest := Unescape(word[i + Taken(word, i)..]);
    assert (out + [Decoded(word, i)]) + rest == out + ([Decoded(word, i)] + rest);
  }

  method DecodeWord(word: string) returns (out: string)
    ensures out == Unescape(word)
  {
    out := "";
    var i := 0;
    while i < |word|
      invariant 0 <= i <= |word|
      invariant out + Unescape(word[i..]) == Unescape(word)
    {
      var c, n := DecodeNext(word, i);
      DecodeStep(word, out, i);
      out := out + [c];
      i := i + n;
    }
  }

  /** The loop body: the next byte and how far to move on. */
  method DecodeNext(word: string, i: nat) returns (c: char, n: nat)
    requires i < |word|
    ensures c == Decoded(word, i) && n == Taken(word, i)
  {
    if word[i] == '\\' && i + 3 < |word| + 1 {
      if word[i + 1] == '\\' {
        return '\\', 2;
      }
      if i + 4 <= |word| && IsDigit(word[i + 1], 8) && IsDigit(word[i + 2], 8) && IsDigit(word[i + 3], 8) {
        return OctalByte(word[i + 1], word[i + 2], word[i + 3]), 4;
      }
    }
    return word[i], 1;
  }

  // ----- keywords

  function KeyLength(word: string): (n: nat)
    ensures n <= |word|
    ensures n < |word| ==> word[n] == '='
    ensures forall i :: 0 <= i < n ==> word[i] != '='
  {
    if word == "" || word[0] == '=' then 0 else 1 + KeyLength(word[1..])
  }

  function SplitKeyword(word: string): (string, Option<string>) {
    var n := KeyLength(word);
    (word[..n], if n < |word| then Some(word[n + 1..]) else None)
  }

  function ApplyKeyword(into: Keywords, word: string): Result<Keywords, Problem> {
    var (key, value) := SplitKeyword(word);
    match value
    case None => Ok(into)
    case Some(text) =>
      if key == "type" then
        match ParseType(text)
        case Some(t) => Ok(into.(fileType := Some(t)))
        case None => Err(InvalidType(text))
      else if key == "size" then
        match ParseU64(text)
        case Some(n) => Ok(into.(size := Some(n)))
        case None => Err(InvalidSize(text))
      else if key == "link" then Ok(into.(link := Some(text)))
      else Ok(into)
  }

  function ApplyKeywords(into: Keywords, words: seq<string>): Result<Keywords, Problem>
    decreases |words|
  {
    if words == [] then Ok(into)
    else
      match ApplyKeyword(into, words[0])
      case Err(e) => Err(e)
      case Ok(next) => ApplyKeywords(next, words[1..])
  }

  function UnsetOne(from: Keywords, word: string): Keywords {
    match SplitKeyword(word).0
    case "type" => from.(fileType := None)
    case "size" => from.(size := None)
    case "link" => from.(link := None)
    case _ => from
  }

  function Unset(from: Keywords, words: seq<string>): Keywords
    decreases |words|
  {
    if words == [] then from else Unset(UnsetOne(from, words[0]), words[1..])
  }

  method FoldKeywords(into: Keywords, words: seq<string>) returns (r: Result<Keywords, Problem>)
    ensures r == ApplyKeywords(into, words)
  {
    var keywords := into;
    for i := 0 to |words|
      invariant ApplyKeywords(keywords, words[i..]) == ApplyKeywords(into, words)
    {
      assert words[i..][0] == words[i] && words[i..][1..] == words[i + 1..];
      var next := ApplyKeyword(keywords, words[i]);
      if next.Err? {
        return next;
      }
      keywords := next.value;
    }
    return Ok(keywords);
  }

  method FoldUnset(from: Keywords, words: seq<string>) returns (keywords: Keywords)
    ensures keywords == Unset(from, words)
  {
    keywords := from;
    for i := 0 to |words|
      invariant Unset(keywords, words[i..]) == Unset(from, words)
    {
      assert words[i..][0] == words[i] && words[i..][1..] == words[i + 1..];
      keywords := UnsetOne(keywords, words[i]);
    }
  }

  // ----- lines

  datatype Parser = Parser(defaults: Keywords, stack: seq<string>, records: seq<Record>)

  const START := Parser(NOTHING, [], [])

  /** The directories on the stack, each followed by a slash. */
  function Prefix(stack: seq<string>): string {
    if stack == [] then "" else stack[0] + "/" + Prefix(stack[1..])
  }

  function DecodedLink(link: Option<string>): Option<string> {
    match link
    case None => None
    case Some(raw) => Some(Unescape(raw))
  }

  predicate IsFullPath(word: string) {
    '/' in word
  }

  /** A bare directory other than `.` encloses the records after it. */
  predicate Opens(first: string, keywords: Keywords) {
    !IsFullPath(first) && keywords.fileType == Some(Directory) && Unescape(first) != "."
  }

  /** A record placed below the directory stack, unless its path is full. */
  function RecordAt(stack: seq<string>, first: string, keywords: Keywords): Record {
    var name := Unescape(first);
    Record(if IsFullPath(first) then name else Prefix(stack) + name,
           keywords.fileType, keywords.size, DecodedLink(keywords.link))
  }

  function StackAfter(stack: seq<string>, first: string, keywords: Keywords): seq<string> {
    if Opens(first, keywords) then stack + [Unescape(first)] else stack
  }

  function AddRecord(s: Parser, first: string, keywords: Keywords): Parser {
    Parser(s.defaults, StackAfter(s.stack, first, keywords), s.records + [RecordAt(s.stack, first, keywords)])
  }

  /** What one line, given as its words, does to the reader. */
  function Step(s: Parser, words: seq<string>): Result<Parser, Problem> {
    if words == [] || words[0] == "" || words[0][0] == '#' then Ok(s)
    else if words[0] == ".." then
      Ok(if s.stack == [] then s else s.(stack := s.stack[..|s.stack| - 1]))
    else if words[0] == "/set" then
      match ApplyKeywords(s.defaults, words[1..])
      case Err(e) => Err(e)
      case Ok(d) => Ok(s.(defaults := d))
    else if words[0] == "/unset" then Ok(s.(defaults := Unset(s.defaults, words[1..])))
    else if words[0][0] == '/' then Err(UnknownDirective(words[0][1..]))
    else
      match ApplyKeywords(s.defaults, words[1..])
      case Err(e) => Err(e)
      case Ok(keywords) => Ok(AddRecord(s, words[0], keywords))
  }

  /** Reads lines starting at line `number`. */
  function Run(s: Parser, lines: seq<string>, number: nat): Result<Parser, ParseError>
    decreases |lines|
  {
    if lines == [] then Ok(s)
    else
      match Step(s, Words(lines[0]))
      case Err(e) => Err(ParseError(number, e))
      case Ok(next) => Run(next, lines[1..], number + 1)
  }

  function Manifest(bytes: string): Result<seq<Record>, ParseError> {
    match Run(START, Split(bytes, {'\n'}), 1)
    case Err(e) => Err(e)
    case Ok(s) => Ok(s.records)
  }

  lemma {:induction false} PrefixAppend(stack: seq<string>, name: string)
    ensures Prefix(stack + [name]) == Prefix(stack) + name + "/"
  {
    if stack == [] {
      assert (stack + [name])[1..] == [];
    } else {
      PrefixAppend(stack[1..], name);
      assert (stack + [name])[1..] == stack[1..] + [name];
    }
  }

  method JoinStack(stack: seq<string>) returns (joined: string)
    ensures joined == Prefix(stack)
  {
    joined := "";
    for i := 0 to |stack|
      invariant joined == Prefix(stack[..i])
    {
      PrefixAppend(stack[..i], stack[i]);
      assert stack[..i + 1] == stack[..i] + [stack[i]];
      joined := joined + stack[i];
      joined := joined + "/";
    }
    assert stack[..|stack|] == stack;
  }

  lemma {:induction false} RunAppend(s: Parser, a: seq<string>, b: seq<string>, number: nat)
    ensures var first := Run(s, a, number);
            Run(s, a + b, number) == if first.Err? then first else Run(first.value, b, number + |a|)
    decreases |a|
  {
    if a == [] {
      assert a + b == b;
    } else {
      assert (a + b)[0] == a[0] && (a + b)[1..] == a[1..] + b;
      match Step(s, Words(a[0]))
      case Err(_) =>
      case Ok(next) => RunAppend(next, a[1..], b, number + 1);
    }
  }

  lemma {:induction false} WordsAreWords(line: string)
    requires Free(line, {'\n'})
    ensures forall i :: 0 <= i < |Words(line)| ==>
              Words(line)[i] != "" && Free(Words(line)[i], BLANKS + {'\n'})
  {
    PiecesAreFree(line, BLANKS, {'\n'});
    forall i | 0 <= i < |Words(line)|
      ensures Words(line)[i] != "" && Free(Words(line)[i], BLANKS + {'\n'})
    {
      NonEmptyMembers(Split(line, BLANKS), Words(line)[i]);
    }
  }

  /** Places a record below the directory stack, pushing a directory onto it. */
  method ReadRecord(stack: seq<string>, first: string, keywords: Keywords)
    returns (below: seq<string>, record: Record)
    ensures below == StackAfter(stack, first, keywords) && record == RecordAt(stack, first, keywords)
  {
    var isFull := '/' in first;
    var name := DecodeWord(first);
    var path := name;
    if !isFull {
      var joined := JoinStack(stack);
      path := joined + name;
    }
    below := stack;
    if !isFull && keywords.fileType == Some(Directory) && name != "." {
      below := stack + [name];
    }
    var link := None;
    if keywords.link.Some? {
      var target := DecodeWord(keywords.link.value);
      link := Some(target);
    }
    record := Record(path, keywords.fileType, keywords.size, link);
  }

  lemma {:induction false} RunLine(s: Parser, lines: seq<string>, index: nat, number: nat)
    requires index < |lines|
    ensures var next := Step(s, Words(lines[index]));
            Run(s, lines[index..], number) ==
            if next.Err? then Err(ParseError(number, next.error)) else Run(next.value, lines[index + 1..], number + 1)
  {
    assert lines[index..][0] == lines[index] && lines[index..][1..] == lines[index + 1..];
  }

  /** What the loop body of `parse` does with one line that has words. */
  method ReadLine(s: Parser, words: seq<string>) returns (r: Result<Parser, Problem>)
    requires words != [] && words[0] != ""
    ensures r == Step(s, words)
  {
    var first := words[0];
    if first[0] == '#' {
      return Ok(s);
    }
    if first == ".." {
      return Ok(if s.stack == [] then s else s.(stack := s.stack[..|s.stack| - 1]));
    }
    if first[0] == '/' {
      assert first == "/" + first[1..];
      if first[1..] == "set" {
        assert first == "/set";
        var defaults :- FoldKeywords(s.defaults, words[1..]);
        return Ok(s.(defaults := defaults));
      }
      if first[1..] == "unset" {
        assert first == "/unset";
        var defaults := FoldUnset(s.defaults, words[1..]);
        return Ok(s.(defaults := defaults));
      }
      return Err(UnknownDirective(first[1..]));
    }
    var keywords :- FoldKeywords(s.defaults, words[1..]);
    var stack, record := ReadRecord(s.stack, first, keywords);
    return Ok(Parser(s.defaults, stack, s.records + [record]));
  }

  /** `parse`: one pass over the lines, keeping the defaults, the stack and the
      records in variables. */
  method Parse(bytes: string) returns (r: Result<seq<Record>, ParseError>)
    ensures r == Manifest(bytes)
  {
    var defaults := NOTHING;
    var stack: seq<string> := [];
    var records: seq<Record> := [];
    var lines := Split(bytes, {'\n'});
    for index := 0 to |lines|
      invariant Run(Parser(defaults, stack, records), lines[index..], index + 1) == Run(START, lines, 1)
    {
      RunLine(Parser(defaults, stack, records), lines, index, index + 1);
      var words := Words(lines[index]);
      if words == [] {
        continue;
      }
      NonEmptyMembers(Split(lines[index], BLANKS), words[0]);
      var next := ReadLine(Parser(defaults, stack, records), words);
      if next.Err? {
        return Err(ParseError(index + 1, next.error));
      }
      defaults, stack, records := next.value.defaults, next.value.stack, next.value.records;
    }
    assert lines[|lines|..] == [];
    return Ok(records);
  }

  // ----- listing

  datatype Kind = FileKind | DirectoryKind | SymlinkKind | SpecialKind

  datatype MtreeEntry = MtreeEntry(
    index: nat,
    path: string,
    kind: Kind,
    size: Option<nat>,
    fileType: string,
    linkTarget: Option<string>)

  function KindOf(t: FileType): Kind {
    match t
    case Directory => DirectoryKind
    case SymbolicLink => SymlinkKind
    case File => FileKind
    case _ => SpecialKind
  }

  function TrimDots(path: string): string {
    if |path| >= 2 && path[..2] == "./" then TrimDots(path[2..]) else path
  }

  predicate IsTreeRoot(path: string) {
    TrimDots(path) in {"", "."}
  }

  /** `./` any number of times. */
  function Dots(n: nat): string {
    if n == 0 then "" else "./" + Dots(n - 1)
  }

  /** The tree root is `.` or nothing behind any number of `./`. */
  lemma {:induction false} TreeRootIff(n: nat, path: string)
    requires !("./" <= path)
    ensures IsTreeRoot(Dots(n) + path) <==> path == "" || path == "."
    decreases n
  {
    if n == 0 {
      assert Dots(0) + path == path;
      assert |path| >= 2 ==> path[..2] != "./";
    } else {
      var s := Dots(n) + path;
      assert s == "./" + (Dots(n - 1) + path);
      assert s[..2] == "./" && s[2..] == Dots(n - 1) + path;
      TreeRootIff(n - 1, path);
    }
  }

  function Listed(records: seq<Record>): seq<Record> {
    if records == [] then []
    else (if IsTreeRoot(records[0].path) then [] else [records[0]]) + Listed(records[1..])
  }

  lemma {:induction false} ListedAppend(records: seq<Record>, r: Record)
    ensures Listed(records + [r]) == Listed(records) + if IsTreeRoot(r.path) then [] else [r]
  {
    if records == [] {
      assert (records + [r])[1..] == [];
    } else {
      ListedAppend(records[1..], r);
      assert (records + [r])[1..] == records[1..] + [r];
    }
  }

  /** The `i`th record that is not the tree root, as the listing reports it. */
  predicate Describes(e: MtreeEntry, i: nat, r: Record, normalize: string -> Option<string>) {
    var t := if r.fileType.Some? then r.fileType.value else File;
    && e.index == i && Some(e.path) == normalize(r.path)
    && (e.kind.DirectoryKind? <==> t.Directory?) && (e.kind.SymlinkKind? <==> t.SymbolicLink?)
    && (e.kind.FileKind? <==> t.File?) && e.fileType == TypeName(t)
    && e.size == r.size && e.linkTarget == r.link
  }

  /** Every path is safe and no two are the same. */
  ghost predicate Listable(listed: seq<Record>, normalize: string -> Option<string>) {
    && (forall i :: 0 <= i < |listed| ==> normalize(listed[i].path).Some?)
    && (forall i, j :: 0 <= i < j < |listed| ==> normalize(listed[i].path) != normalize(listed[j].path))
  }

  predicate Matches(entries: seq<MtreeEntry>, listed: seq<Record>, normalize: string -> Option<string>) {
    && |entries| == |listed|
    && forall i :: 0 <= i < |entries| ==> Describes(entries[i], i, listed[i], normalize)
  }

  /** `list`: drops the tree root, refuses unsafe and duplicate paths, and
      numbers the rest in order. */
  method List(records: seq<Record>, normalize: string -> Option<string>) returns (r: Outcome<seq<MtreeEntry>>)
    ensures r.Success? <==> Listable(Listed(records), normalize)
    ensures r.Success? ==> Matches(r.value, Listed(records), normalize)
  {
    var entries: seq<MtreeEntry> := [];
    var used: seq<string> := [];
    for k := 0 to |records|
      invariant Listable(Listed(records[..k]), normalize)
      invariant Matches(entries, Listed(records[..k]), normalize)
      invariant Paths(used, entries)
    {
      var record := records[k];
      ghost var before := Listed(records[..k]);
      ListedAppend(records[..k], record);
      ListedPrefix(records, k + 1);
      assert records[..k + 1] == records[..k] + [record];
      if IsTreeRoot(record.path) {
        continue;
      }
      var normalized := normalize(record.path);
      if normalized.None? || normalized.value in used {
        Refused(entries, used, before, record, normalize, Listed(records));
        return Failure;
      }
      var fileType := if record.fileType.Some? then record.fileType.value else File;
      var entry := MtreeEntry(|entries|, normalized.value, KindOf(fileType), record.size, TypeName(fileType), record.link);
      Accepted(entries, used, before, record, normalize, entry);
      used := used + [normalized.value];
      entries := entries + [entry];
    }
    assert records[..|records|] == records;
    return Success(entries);
  }

  predicate Paths(used: seq<string>, entries: seq<MtreeEntry>) {
    |used| == |entries| && forall i :: 0 <= i < |used| ==> used[i] == entries[i].path
  }

  lemma {:induction false} Refused(entries: seq<MtreeEntry>, used: seq<string>, before: seq<Record>, r: Record,
                normalize: string -> Option<string>, listed: seq<Record>)
    requires Matches(entries, before, normalize) && Paths(used, entries)
    requires before + [r] <= listed
    requires normalize(r.path).None? || normalize(r.path).value in used
    ensures !Listable(listed, normalize)
  {
    assert listed[|before|] == r;
    if normalize(r.path).Some? {
      var i :| 0 <= i < |used| && used[i] == normalize(r.path).value;
      assert Describes(entries[i], i, before[i], normalize);
      assert listed[i] == before[i];
    }
  }

  lemma {:induction false} Accepted(entries: seq<MtreeEntry>, used: seq<string>, before: seq<Record>, r: Record,
                 normalize: string -> Option<string>, entry: MtreeEntry)
    requires Matches(entries, before, normalize) && Paths(used, entries) && Listable(before, normalize)
    requires Describes(entry, |before|, r, normalize) && entry.path !in used
    ensures Matches(entries + [entry], before + [r], normalize)
    ensures Paths(used + [entry.path], entries + [entry])
    ensures Listable(before + [r], normalize)
  {
    forall i | 0 <= i < |before| ensures normalize(before[i].path) != normalize(r.path) {
      assert Describes(entries[i], i, before[i], normalize);
      assert used[i] in used;
    }
  }

  lemma {:induction false} ListedPrefix(records: seq<Record>, k: nat)
    requires k <= |records|
    ensures Listed(records[..k]) <= Listed(records)
    decreases |records| - k
  {
    if k < |records| {
      ListedPrefix(records, k + 1);
      ListedAppend(records[..k], records[k]);
      assert records[..k + 1] == records[..k] + [records[k]];
    } else {
      assert records[..k] == records;
    }
  }
}
