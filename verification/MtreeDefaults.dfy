/** Manifests with `/set`, `/unset`, remarks and foreign keywords in print, what they
    mean line by line, and the lines that stop the reader. */
module MtreeDefaults {

  import opened Wrappers
  import opened Text
  import opened Mtree
  import opened MtreeForms

  // ----- words

  /** Spaces, tabs and carriage returns separate words. */
  lemma {:induction false} WordsAreSeparated(a: string, c: char, b: string)
    requires c in {' ', '\t', '\r'}
    ensures Words(a + [c] + b) == Words(a) + Words(b)
  {
    SplitConcat(a, c, b, BLANKS);
    NonEmptyConcat(Split(a, BLANKS), Split(b, BLANKS));
  }

  predicate AllPrintable(words: seq<string>) {
    forall i :: 0 <= i < |words| ==> Printable(words[i])
  }

  lemma {:induction false} WordsOfJoin(words: seq<string>)
    requires words != [] && AllPrintable(words)
    ensures Words(Join(words, ' ')) == words && Free(Join(words, ' '), {'\n'})
  {
    SplitJoin(words, ' ', BLANKS);
    NonEmptyKeeps(words);
    JoinIsFree(words, ' ', {'\n'});
  }

  // ----- attributes

  /** What a line says of an entry, the link target in plain. */
  datatype Attributes = Attributes(fileType: Option<FileType>, size: Option<nat>, link: Option<string>)

  const UNKNOWN := Attributes(None, None, None)

  predicate ValidAttributes(a: Attributes) {
    (a.size.Some? ==> a.size.value < U64_LIMIT) && (a.link.Some? ==> IsBytes(a.link.value))
  }

  /** What is said above wins over what is said below. */
  function Over(above: Attributes, below: Attributes): Attributes {
    Attributes(
      if above.fileType.Some? then above.fileType else below.fileType,
      if above.size.Some? then above.size else below.size,
      if above.link.Some? then above.link else below.link)
  }

  /** A word about a keyword: its name alone, or with a value. */
  predicate Mentions(word: string, key: string) {
    word == key || key + "=" <= word
  }

  predicate SomeMentions(words: seq<string>, key: string) {
    exists i :: 0 <= i < |words| && Mentions(words[i], key)
  }

  /** Without the keywords that some word mentions. */
  function Cleared(a: Attributes, words: seq<string>): Attributes {
    Attributes(
      if SomeMentions(words, "type") then None else a.fileType,
      if SomeMentions(words, "size") then None else a.size,
      if SomeMentions(words, "link") then None else a.link)
  }

  function Raw(a: Attributes): Keywords
    requires ValidAttributes(a)
  {
    KeywordsOf(a.fileType, a.size, a.link)
  }

  lemma {:induction false} KeyOf(word: string, key: string)
    requires '=' !in key
    ensures SplitKeyword(word).0 == key <==> Mentions(word, key)
  {
    var n := KeyLength(word);
    if word[..n] == key && n < |word| {
      assert word[..n + 1] == key + "=";
    }
    if key + "=" <= word {
      assert word[|key|] == '=' && word[..|key|] == key;
      assert forall i :: 0 <= i < |key| ==> word[i] == key[i];
    }
    if word == key {
      assert n == |word| && word[..n] == word;
    }
  }

  lemma {:induction false} UnsetWord(k: Keywords, word: string)
    ensures UnsetOne(k, word) == Keywords(
              if Mentions(word, "type") then None else k.fileType,
              if Mentions(word, "size") then None else k.size,
              if Mentions(word, "link") then None else k.link)
  {
    KeyOf(word, "type");
    KeyOf(word, "size");
    KeyOf(word, "link");
    assert "type"[0] == 't' && "size"[0] == 's' && "link"[0] == 'l';
  }

  lemma {:induction false} SomeMentionsFirst(words: seq<string>, key: string)
    requires words != []
    ensures SomeMentions(words, key) <==> Mentions(words[0], key) || SomeMentions(words[1..], key)
  {
    if i :| 0 <= i < |words| && Mentions(words[i], key) {
      assert i > 0 ==> words[1..][i - 1] == words[i];
    }
    if i :| 0 <= i < |words[1..]| && Mentions(words[1..][i], key) {
      assert words[i + 1] == words[1..][i];
    }
  }

  /** `/unset` clears exactly the keywords that some word mentions. */
  lemma {:induction false} UnsetClears(k: Keywords, words: seq<string>)
    ensures Unset(k, words) == Keywords(
              if SomeMentions(words, "type") then None else k.fileType,
              if SomeMentions(words, "size") then None else k.size,
              if SomeMentions(words, "link") then None else k.link)
    decreases |words|
  {
    if words != [] {
      UnsetWord(k, words[0]);
      UnsetClears(UnsetOne(k, words[0]), words[1..]);
      SomeMentionsFirst(words, "type");
      SomeMentionsFirst(words, "size");
      SomeMentionsFirst(words, "link");
    }
  }

  // ----- keyword words

  /** A word the reader has no use for. */
  predicate IsForeign(word: string) {
    Printable(word) && !("type=" <= word) && !("size=" <= word) && !("link=" <= word)
  }

  predicate AllForeign(words: seq<string>) {
    forall i :: 0 <= i < |words| ==> IsForeign(words[i])
  }

  lemma {:induction false} ForeignIsIgnored(k: Keywords, word: string)
    requires IsForeign(word)
    ensures ApplyKeyword(k, word) == Ok(k)
  {
    var n := KeyLength(word);
    if n < |word| {
      assert word[..n] + "=" == word[..n + 1] && word[..n + 1] <= word;
    }
  }

  lemma {:induction false} AllForeignIgnored(k: Keywords, words: seq<string>)
    requires AllForeign(words)
    ensures ApplyKeywords(k, words) == Ok(k)
    decreases |words|
  {
    if words != [] {
      ForeignIsIgnored(k, words[0]);
      AllForeignIgnored(k, words[1..]);
    }
  }

  /** Printed attributes, read over others, win over them. */
  lemma {:induction false} ApplyOver(a: Attributes, below: Attributes)
    requires ValidAttributes(a) && ValidAttributes(below)
    ensures ApplyKeywords(Raw(below), KeywordWords(Raw(a))) == Ok(Raw(Over(a, below)))
  {
    var k, d := Raw(a), Raw(below);
    var x := if k.fileType.Some? then ["type=" + TypeName(k.fileType.value)] else [];
    var y := if k.size.Some? then ["size=" + Decimal(k.size.value)] else [];
    var z := if k.link.Some? then ["link=" + k.link.value] else [];
    var kx := if k.fileType.Some? then d.(fileType := k.fileType) else d;
    var ky := if k.size.Some? then kx.(size := k.size) else kx;
    ApplyAppend(d, x + y, z);
    ApplyAppend(d, x, y);
    if k.fileType.Some? {
      ApplyPrintedType(d, k.fileType.value);
      ApplySingle(d, x[0]);
    }
    if k.size.Some? {
      ApplyPrintedSize(kx, k.size.value);
      ApplySingle(kx, y[0]);
    }
    if k.link.Some? {
      ApplyPrintedLink(ky, k.link.value);
      ApplySingle(ky, z[0]);
    }
  }

  /** The attributes in print, and foreign words behind them. */
  function AttributeWords(a: Attributes, foreign: seq<string>): seq<string>
    requires ValidAttributes(a)
  {
    KeywordWords(Raw(a)) + foreign
  }

  lemma {:induction false} AttributesRead(a: Attributes, foreign: seq<string>, below: Attributes)
    requires ValidAttributes(a) && ValidAttributes(below) && AllForeign(foreign)
    ensures ApplyKeywords(Raw(below), AttributeWords(a, foreign)) == Ok(Raw(Over(a, below)))
    ensures AllPrintable(AttributeWords(a, foreign))
  {
    ApplyOver(a, below);
    ApplyAppend(Raw(below), KeywordWords(Raw(a)), foreign);
    AllForeignIgnored(Raw(Over(a, below)), foreign);
    PrintedKeywords(a.fileType, a.size, a.link);
    KeywordWordsArePrintable(Raw(a));
  }

  // ----- lines

  datatype Item =
    | Defaults(own: Attributes, foreign: seq<string>)
    | Clear(words: seq<string>)
    | Bare(name: string, own: Attributes, foreign: seq<string>)
    | Full(path: string, own: Attributes, foreign: seq<string>)
    | Close
    | Remark(text: string)

  predicate ValidItem(item: Item) {
    match item
    case Defaults(own, foreign) => ValidAttributes(own) && AllForeign(foreign)
    case Clear(words) => AllPrintable(words)
    case Bare(name, own, foreign) => name != "" && IsBytes(name) && ValidAttributes(own) && AllForeign(foreign)
    case Full(path, own, foreign) => IsBytes(path) && ValidAttributes(own) && AllForeign(foreign)
    case Close => true
    case Remark(text) => Free(text, BLANKS + {'\n'})
  }

  predicate ValidItems(items: seq<Item>) {
    forall i :: 0 <= i < |items| ==> ValidItem(items[i])
  }

  function ItemWords(item: Item): seq<string>
    requires ValidItem(item)
  {
    match item
    case Defaults(own, foreign) => ["/set"] + AttributeWords(own, foreign)
    case Clear(words) => ["/unset"] + words
    case Bare(name, own, foreign) => [Escape(name, false)] + AttributeWords(own, foreign)
    case Full(path, own, foreign) => ["./" + Escape(path, true)] + AttributeWords(own, foreign)
    case Close => [".."]
    case Remark(text) => ["#" + text]
  }

  function PrintItem(item: Item): string
    requires ValidItem(item)
  {
    Join(ItemWords(item), ' ')
  }

  function PrintItems(items: seq<Item>): seq<string>
    requires ValidItems(items)
  {
    if items == [] then [] else [PrintItem(items[0])] + PrintItems(items[1..])
  }

  // ----- what the lines mean

  datatype Scene = Scene(defaults: Attributes, stack: seq<string>, records: seq<Record>)

  const EMPTY := Scene(UNKNOWN, [], [])

  function Reported(path: string, a: Attributes): Record {
    Record(path, a.fileType, a.size, a.link)
  }

  /** What a line makes of the scene.  A bare directory encloses what follows. */
  function After(s: Scene, item: Item): Scene {
    match item
    case Defaults(own, _) => s.(defaults := Over(own, s.defaults))
    case Clear(words) => s.(defaults := Cleared(s.defaults, words))
    case Bare(name, own, _) =>
      var a := Over(own, s.defaults);
      Scene(s.defaults, if a.fileType == Some(Directory) && name != "." then s.stack + [name] else s.stack,
            s.records + [Reported(Join(s.stack + [name], '/'), a)])
    case Full(path, own, _) => s.(records := s.records + [Reported("./" + path, Over(own, s.defaults))])
    case Close => if s.stack == [] then s else s.(stack := s.stack[..|s.stack| - 1])
    case Remark(_) => s
  }

  function AfterAll(s: Scene, items: seq<Item>): Scene
    decreases |items|
  {
    if items == [] then s else AfterAll(After(s, items[0]), items[1..])
  }

  /** The reader in a scene. */
  function Reader(s: Scene): Parser
    requires ValidAttributes(s.defaults)
  {
    Parser(Raw(s.defaults), s.stack, s.records)
  }

  lemma {:induction false} PrefixIsJoin(stack: seq<string>, name: string)
    ensures Prefix(stack) + name == Join(stack + [name], '/')
    decreases |stack|
  {
    if stack == [] {
      assert stack + [name] == [name] && "" + name == name;
    } else {
      PrefixIsJoin(stack[1..], name);
      assert (stack + [name])[1..] == stack[1..] + [name];
      assert Prefix(stack) + name == stack[0] + "/" + (Prefix(stack[1..]) + name);
    }
  }

  lemma {:induction false} ClearedRaw(a: Attributes, words: seq<string>)
    requires ValidAttributes(a)
    ensures ValidAttributes(Cleared(a, words)) && Unset(Raw(a), words) == Raw(Cleared(a, words))
  {
    UnsetClears(Raw(a), words);
  }

  lemma {:induction false} PlaceRecord(s: Scene, first: string, a: Attributes)
    requires ValidAttributes(s.defaults) && ValidAttributes(a)
    ensures AddRecord(Reader(s), first, Raw(a)).records ==
            s.records + [Reported(if '/' in first then Unescape(first) else Prefix(s.stack) + Unescape(first), a)]
  {
    PrintedKeywords(a.fileType, a.size, a.link);
  }

  lemma {:induction false} StepPut(s: Scene, first: string, own: Attributes, foreign: seq<string>)
    requires ValidAttributes(s.defaults) && ValidAttributes(own) && AllForeign(foreign)
    requires Printable(first) && first[0] != '#' && first[0] != '/' && first != ".."
    ensures var words := [first] + AttributeWords(own, foreign);
            && Step(Reader(s), words) == Ok(AddRecord(Reader(s), first, Raw(Over(own, s.defaults))))
            && AllPrintable(words)
  {
    var words := [first] + AttributeWords(own, foreign);
    AttributesRead(own, foreign, s.defaults);
    assert words[0] == first && words[1..] == AttributeWords(own, foreign);
    assert "/set"[0] == '/' && "/unset"[0] == '/';
  }

  lemma {:induction false} StepBare(s: Scene, item: Item)
    requires ValidAttributes(s.defaults) && ValidItem(item) && item.Bare?
    ensures Step(Reader(s), ItemWords(item)) == Ok(Reader(After(s, item))) && AllPrintable(ItemWords(item))
  {
    var first, a := Escape(item.name, false), Over(item.own, s.defaults);
    EscapedIsPrintable(item.name, false);
    UnescapeEscape(item.name, false);
    assert Printable(first) && first[0] !in {'#', '.'} && first[0] in first;
    StepPut(s, first, item.own, item.foreign);
    PlaceRecord(s, first, a);
    PrefixIsJoin(s.stack, item.name);
  }

  lemma {:induction false} StepFullPath(s: Scene, item: Item)
    requires ValidAttributes(s.defaults) && ValidItem(item) && item.Full?
    ensures Step(Reader(s), ItemWords(item)) == Ok(Reader(After(s, item))) && AllPrintable(ItemWords(item))
  {
    var first, a := "./" + Escape(item.path, true), Over(item.own, s.defaults);
    EscapedIsPrintable(item.path, true);
    UnescapeDotted(item.path);
    assert first[0] == '.' && first[1] == '/';
    StepPut(s, first, item.own, item.foreign);
    PlaceRecord(s, first, a);
  }

  lemma {:induction false} StepDirective(s: Scene, item: Item)
    requires ValidAttributes(s.defaults) && ValidItem(item) && (item.Defaults? || item.Clear?)
    ensures Step(Reader(s), ItemWords(item)) == Ok(Reader(After(s, item))) && AllPrintable(ItemWords(item))
  {
    var words := ItemWords(item);
    assert "/set"[0] == '/' && "/unset"[0] == '/' && "/set" != "/unset";
    if item.Defaults? {
      AttributesRead(item.own, item.foreign, s.defaults);
      assert words[1..] == AttributeWords(item.own, item.foreign);
    } else {
      ClearedRaw(s.defaults, item.words);
      assert words[1..] == item.words;
    }
  }

  /** One printed line does to the reader what it means. */
  lemma {:induction false} StepItem(s: Scene, item: Item)
    requires ValidAttributes(s.defaults) && ValidItem(item)
    ensures ValidAttributes(After(s, item).defaults)
    ensures Step(Reader(s), Words(PrintItem(item))) == Ok(Reader(After(s, item)))
    ensures Free(PrintItem(item), {'\n'})
  {
    match item {
      case Defaults(_, _) => StepDirective(s, item);
      case Clear(_) => StepDirective(s, item);
      case Bare(_, _, _) => StepBare(s, item);
      case Full(_, _, _) => StepFullPath(s, item);
      case Close => assert AllPrintable([".."]);
      case Remark(text) => assert AllPrintable(["#" + text]);
    }
    WordsOfJoin(ItemWords(item));
  }

  lemma {:induction false} ReadsItems(s: Scene, items: seq<Item>)
    requires ValidAttributes(s.defaults) && ValidItems(items)
    ensures ValidAttributes(AfterAll(s, items).defaults)
    ensures Reads(Reader(s), PrintItems(items), Reader(AfterAll(s, items)))
    ensures OneLiners(PrintItems(items)) && |PrintItems(items)| == |items|
    decreases |items|
  {
    if items == [] {
      ReadsNothing(Reader(s));
    } else {
      var next := After(s, items[0]);
      StepItem(s, items[0]);
      ReadsLine(Reader(s), PrintItem(items[0]), Reader(next));
      ReadsItems(next, items[1..]);
      ReadsBoth(Reader(s), [PrintItem(items[0])], Reader(next), PrintItems(items[1..]), Reader(AfterAll(s, items)),
                PrintItems(items));
    }
  }

  /** Any manifest of such lines reads to the records they mean: defaults apply until
      they are overridden or cleared, bare directories nest, and remarks and foreign
      keywords change nothing. */
  lemma {:induction false} ManifestMeaning(items: seq<Item>)
    requires ValidItems(items)
    ensures Manifest(Join(PrintItems(items) + [""], '\n')) == Ok(AfterAll(EMPTY, items).records)
  {
    ReadsItems(EMPTY, items);
    var t := Reader(AfterAll(EMPTY, items));
    var all := PrintItems(items) + [""];
    assert Reader(EMPTY) == START;
    SplitJoin(all, '\n', {'\n'});
    WordsEmpty(t);
    ReadsBoth(START, PrintItems(items), t, [""], t, all);
    assert Run(START, all, 1) == Ok(t);
  }

  /** After `/unset` of `type`, an entry without a type has none, and encloses nothing. */
  lemma {:induction false} UnsetTypeForgets(s: Scene, words: seq<string>, name: string, own: Attributes, foreign: seq<string>)
    requires SomeMentions(words, "type") && own.fileType.None?
    ensures var after := After(After(s, Clear(words)), Bare(name, own, foreign));
            && after.stack == s.stack && |after.records| == |s.records| + 1
            && after.records[|s.records|].fileType.None?
  {
  }

  // ----- lines that stop the reader

  const TYPE_NAMES: set<string> := {"block", "char", "dir", "fifo", "file", "link", "socket"}

  /** A line with one fault: in a keyword behind an entry or `/set`, or an unknown
      directive. */
  datatype Fault =
    | BadType(first: string, value: string)
    | BadSize(first: string, value: string)
    | BadDirective(name: string)

  predicate IsEntryWord(word: string) {
    Printable(word) && (word == "/set" || (word[0] != '#' && word[0] != '/' && word != ".."))
  }

  ghost predicate ValidFault(f: Fault) {
    match f
    case BadType(first, value) => IsEntryWord(first) && Free(value, BLANKS + {'\n'}) && value !in TYPE_NAMES
    case BadSize(first, value) => IsEntryWord(first) && Free(value, BLANKS + {'\n'}) && IsNoU64(value)
    case BadDirective(name) => Free(name, BLANKS + {'\n'}) && name !in {"set", "unset"}
  }

  function FaultWords(f: Fault): seq<string> {
    match f
    case BadType(first, value) => [first, "type=" + value]
    case BadSize(first, value) => [first, "size=" + value]
    case BadDirective(name) => ["/" + name]
  }

  function ProblemOf(f: Fault): Problem {
    match f
    case BadType(_, value) => InvalidType(value)
    case BadSize(_, value) => InvalidSize(value)
    case BadDirective(name) => UnknownDirective(name)
  }

  lemma {:induction false} BadKeywordStops(s: Parser, first: string, word: string, problem: Problem)
    requires IsEntryWord(first) && ApplyKeyword(s.defaults, word) == Err(problem)
    ensures Step(s, [first, word]) == Err(problem)
  {
    ApplySingle(s.defaults, word);
    assert [first, word][1..] == [word];
    assert "/set" != "/unset" && "/unset"[0] == '/' && "/set"[0] == '/';
  }

  lemma {:induction false} BadDirectiveStops(s: Parser, name: string)
    requires name !in {"set", "unset"}
    ensures Step(s, ["/" + name]) == Err(UnknownDirective(name))
  {
    var word := "/" + name;
    assert word[1..] == name && word[0] == '/';
    assert "/set"[1..] == "set" && "/unset"[1..] == "unset";
  }

  lemma {:induction false} BadKeyword(k: Keywords, key: string, value: string)
    requires key in {"type", "size"}
    requires key == "type" ==> value !in TYPE_NAMES
    requires key == "size" ==> ParseU64(value).None?
    ensures ApplyKeyword(k, key + "=" + value) == Err(if key == "type" then InvalidType(value) else InvalidSize(value))
  {
    KeyLengthOf(key, value);
  }

  lemma {:induction false} FaultStops(s: Parser, f: Fault)
    requires ValidFault(f)
    ensures Step(s, FaultWords(f)) == Err(ProblemOf(f))
  {
    match f
    case BadType(first, value) =>
      BadKeyword(s.defaults, "type", value);
      assert "type" + "=" == "type=";
      BadKeywordStops(s, first, "type=" + value, InvalidType(value));
    case BadSize(first, value) =>
      NoU64(value);
      BadKeyword(s.defaults, "size", value);
      assert "size" + "=" == "size=";
      BadKeywordStops(s, first, "size=" + value, InvalidSize(value));
    case BadDirective(name) =>
      BadDirectiveStops(s, name);
  }

  lemma {:induction false} FaultLine(s: Parser, f: Fault)
    requires ValidFault(f)
    ensures Step(s, Words(Join(FaultWords(f), ' '))) == Err(ProblemOf(f)) && Free(Join(FaultWords(f), ' '), {'\n'})
  {
    FaultStops(s, f);
    assert AllPrintable(FaultWords(f));
    WordsOfJoin(FaultWords(f));
  }

  /** A line that stops the reader does so behind lines it reads. */
  lemma {:induction false} StopsBehind(lines: seq<string>, t: Parser, line: string, rest: seq<string>, problem: Problem)
    requires OneLiners(lines) && Free(line, {'\n'}) && OneLiners(rest)
    requires Reads(START, lines, t) && Step(t, Words(line)) == Err(problem)
    ensures Manifest(Join(lines + [line] + rest, '\n')) == Err(ParseError(|lines| + 1, problem))
  {
    var all := lines + [line] + rest;
    SplitJoin(all, '\n', {'\n'});
    assert all == lines + ([line] + rest);
    RunAppend(START, lines, [line] + rest, 1);
    assert Run(START, lines, 1) == Ok(t);
  }

  lemma {:induction false} FaultBehind(lines: seq<string>, t: Parser, f: Fault, rest: seq<string>)
    requires OneLiners(lines) && OneLiners(rest) && Reads(START, lines, t) && ValidFault(f)
    ensures Manifest(Join(lines + [Join(FaultWords(f), ' ')] + rest, '\n')) == Err(ParseError(|lines| + 1, ProblemOf(f)))
  {
    FaultLine(t, f);
    StopsBehind(lines, t, Join(FaultWords(f), ' '), rest, ProblemOf(f));
  }

  /** A faulty line stops the reader, whatever follows, with its problem and number. */
  lemma {:induction false} FaultIsReported(items: seq<Item>, f: Fault, rest: seq<string>)
    requires ValidItems(items) && ValidFault(f) && OneLiners(rest)
    ensures Manifest(Join(PrintItems(items) + [Join(FaultWords(f), ' ')] + rest, '\n')) ==
            Err(ParseError(|items| + 1, ProblemOf(f)))
  {
    assert Reader(EMPTY) == START;
    ReadsItems(EMPTY, items);
    FaultBehind(PrintItems(items), Reader(AfterAll(EMPTY, items)), f, rest);
  }
}
