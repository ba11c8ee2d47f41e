/** Printed AR archives, and what the reader makes of them. */
module ArForms {

  import opened Wrappers
  import opened Text
  import opened Ar

  /** How a member's name is stored: in the header (with or without the closing
      slash), in the string table, or in front of the payload. */
  datatype NameForm = Short(slash: bool) | Gnu(offset: nat) | Bsd

  datatype Item =
    | File(name: string, form: NameForm, data: string, modified: nat, mode: nat)
    | Table(text: string)
    | Symbols(symbols: string, content: string)

  function Token(item: Item): string {
    match item
    case Table(_) => "//"
    case Symbols(token, _) => token
    case File(name, form, _, _, _) =>
      match form
      case Short(slash) => if slash then name + "/" else name
      case Gnu(offset) => "/" + Decimal(offset)
      case Bsd => "#1/" + Decimal(|name|)
  }

  function StoredName(item: Item): string {
    if item.File? && item.form.Bsd? then item.name else ""
  }

  function DataOf(item: Item): string {
    match item
    case Table(text) => text
    case Symbols(_, content) => content
    case File(_, _, data, _, _) => data
  }

  function Body(item: Item): string {
    StoredName(item) + DataOf(item)
  }

  function Modified(item: Item): nat {
    if item.File? then item.modified else 0
  }

  function Mode(item: Item): nat {
    if item.File? then item.mode else 0
  }

  // ----- headers

  function Blanks(n: nat): (s: string)
    ensures |s| == n && forall i :: 0 <= i < n ==> s[i] == ' '
  {
    seq(n, _ => ' ')
  }

  function Padded(s: string, width: nat): (p: string)
    requires |s| <= width
    ensures |p| == width
  {
    s + Blanks(width - |s|)
  }

  /** Trimming undoes the padding of a field. */
  lemma {:induction false} TrimField(s: string, width: nat)
    requires IsTidy(s) && |s| <= width
    ensures Trim(Padded(s, width)) == s
  {
    assert Padded(s, width) == "" + s + Blanks(width - |s|);
    TrimPadded("", s, Blanks(width - |s|));
  }

  const FILE_MAGIC := "!<arch>\n"

  datatype Columns = Columns(token: string, modified: string, mode: string, size: string)

  predicate ValidColumns(c: Columns) {
    |c.token| <= 16 && |c.modified| <= 12 && |c.mode| <= 8 && |c.size| <= 10
  }

  function PrintColumns(c: Columns): (h: string)
    requires ValidColumns(c)
    ensures |h| == HEADER_SIZE
  {
    Padded(c.token, 16) + Padded(c.modified, 12) + Blanks(12) + Padded(c.mode, 8) + Padded(c.size, 10) + "`\n"
  }

  lemma {:induction false} ColumnSlices(c: Columns)
    requires ValidColumns(c)
    ensures var h := PrintColumns(c);
            && h[..16] == Padded(c.token, 16) && h[16..28] == Padded(c.modified, 12)
            && h[40..48] == Padded(c.mode, 8) && h[48..58] == Padded(c.size, 10) && h[58..] == TRAILER
  {
  }

  lemma {:induction false} DigitsAreTidy(s: string, base: nat)
    requires IsNumeral(s, base) && base <= 10
    ensures IsTidy(s)
  {
    assert IsDigit(s[0], base) && IsDigit(s[|s| - 1], base);
  }

  lemma {:induction false} NumberReads(n: nat, width: nat)
    requires n < U64_LIMIT && |Decimal(n)| <= width
    ensures ParseNumber(Padded(Decimal(n), width)) == Ok(n)
  {
    DigitsAreTidy(Decimal(n), 10);
    TrimField(Decimal(n), width);
    ParseDecimal(n);
  }

  lemma {:induction false} ValueSkipsZero(s: string)
    requires forall i :: 0 <= i < |s| ==> IsDigit(s[i], 8)
    ensures forall i :: 0 <= i < |"0" + s| ==> IsDigit(("0" + s)[i], 8)
    ensures Value("0" + s, 8) == Value(s, 8)
    decreases |s|
  {
    var t := "0" + s;
    if s == "" {
      assert t[..0] == "";
    } else {
      assert t[..|t| - 1] == "0" + s[..|s| - 1];
      ValueSkipsZero(s[..|s| - 1]);
    }
  }

  lemma {:induction false} DroppingZeros(s: string)
    requires forall i :: 0 <= i < |s| ==> IsDigit(s[i], 8)
    ensures var t := DropLeading(s, '0');
            (forall i :: 0 <= i < |t| ==> IsDigit(t[i], 8)) && Value(t, 8) == Value(s, 8)
    decreases |s|
  {
    if s != "" && s[0] == '0' {
      DroppingZeros(s[1..]);
      ValueSkipsZero(s[1..]);
      assert "0" + s[1..] == s;
    }
  }

  lemma {:induction false} OctalReads(n: nat, width: nat)
    requires n < 0x1_0000_0000 && |Octal(n)| <= width
    ensures ParseOctal(Padded(Octal(n), width)) == Ok(n)
  {
    var s := Octal(n);
    DigitsAreTidy(s, 8);
    TrimField(s, width);
    DroppingZeros(s);
    var t := DropLeading(s, '0');
    assert t != "" ==> IsDigit(t[0], 8);
  }

  // ----- items

  function ColumnsOf(item: Item): Columns {
    Columns(Token(item), Decimal(Modified(item)), Octal(Mode(item)), Decimal(|Body(item)|))
  }

  predicate EndsClean(name: string, c: char) {
    name != "" && name[|name| - 1] != c
  }

  /** The token is an ordinary name, not one of the reserved forms. */
  predicate IsPlainToken(token: string) {
    token != "" && IsTidy(token) && token[0] != '/' && !("#1/" <= token) && !("__.SYMDEF" <= token)
  }

  /** The line of the table at an offset is the name, with or without a slash. */
  ghost predicate InTable(table: string, offset: nat, name: string) {
    offset <= |table| && offset < U64_LIMIT && '\n' !in name
    && exists rest :: table[offset..] in {name + "/\n" + rest, name + "\n" + rest}
  }

  ghost predicate ValidItem(item: Item, table: string) {
    && ValidColumns(ColumnsOf(item)) && |Body(item)| < U64_LIMIT
    && Modified(item) < U64_LIMIT && Mode(item) < 0x1_0000_0000
    && (item.Symbols? ==> IsTidy(item.symbols) && (item.symbols in {"/", "/SYM64/"} || "__.SYMDEF" <= item.symbols))
    && (item.File? ==>
          && EndsClean(item.name, '/')
          && (item.form.Short? ==> IsPlainToken(Token(item)))
          && (item.form.Gnu? ==> InTable(table, item.form.offset, item.name))
          && (item.form.Bsd? ==> EndsClean(item.name, '\0')))
  }

  lemma {:induction false} TokenIsTidy(item: Item, table: string)
    requires ValidItem(item, table)
    ensures Token(item) != "" && IsTidy(Token(item))
  {
    if item.File? && item.form.Gnu? {
      DigitsAreTidy(Decimal(item.form.offset), 10);
    } else if item.File? && item.form.Bsd? {
      DigitsAreTidy(Decimal(|item.name|), 10);
    }
  }

  lemma {:induction false} HeaderReads(item: Item, table: string)
    requires ValidItem(item, table)
    ensures ReadHeader(PrintColumns(ColumnsOf(item))) == Ok(HeaderOf(item))
  {
    ColumnSlices(ColumnsOf(item));
    TokenIsTidy(item, table);
    TrimField(Token(item), 16);
    NumberReads(Modified(item), 12);
    OctalReads(Mode(item), 8);
    NumberReads(|Body(item)|, 10);
    TokenReads(item, table);
  }

  /** What the header of an item says. */
  function HeaderOf(item: Item): Header {
    Header(Token(item), Ok(KindOf(item)), Modified(item), Mode(item), |Body(item)|)
  }

  function KindOf(item: Item): Kind {
    match item
    case Table(_) => StringTable
    case Symbols(_, _) => SymbolTable
    case File(name, form, _, _, _) => if form.Bsd? then NameInFront(|name|) else Ordinary
  }

  /** The token announces what the item is. */
  lemma {:induction false} TokenReads(item: Item, table: string)
    requires ValidItem(item, table)
    ensures Classify(Token(item)) == Ok(KindOf(item))
  {
    var token := Token(item);
    assert "//"[0] == '/' && "/"[0] == '/' && "/SYM64/"[0] == '/' && "__.SYMDEF"[0] == '_' && "#1/"[0] == '#';
    if item.File? && item.form.Gnu? {
      var digits := Decimal(item.form.offset);
      assert IsDigit(digits[0], 10) && token[1] == digits[0];
      assert "//"[1] == '/' && "/SYM64/"[1] == 'S';
    } else if item.File? && item.form.Bsd? {
      ParseDecimal(|item.name|);
      assert token[..3] == "#1/" && token[3..] == Decimal(|item.name|);
    } else if item.Symbols? && "__.SYMDEF" <= token {
      assert token[0] == "__.SYMDEF"[0];
    }
  }

  // ----- members

  /** A member with its header in print, what that header says, and the name it
      goes by. */
  datatype Draft = Draft(printed: string, header: Header, kind: Kind, stored: string, data: string, name: string)

  /** The printed header reads back, and describes the member. */
  ghost predicate Understood(d: Draft, read: HeaderReader) {
    && |d.printed| == HEADER_SIZE && read(d.printed) == Ok(d.header) && d.header.kind == Ok(d.kind)
    && d.header.size == |d.stored| + |d.data| && NameLength(d.kind) == |d.stored|
    && (d.kind.NameInFront? ==> DropTrailing(d.stored, '\0') == d.stored)
  }

  function Pad(d: Draft): (pad: string)
    ensures |pad| == (|d.stored| + |d.data|) % 2
  {
    if (|d.stored| + |d.data|) % 2 == 1 then "\n" else ""
  }

  /** A member in front of the rest of the archive. */
  function PrintDraft(d: Draft, rest: string): string {
    d.printed + (d.stored + (d.data + (Pad(d) + rest)))
  }

  function DraftSize(d: Draft): nat {
    HEADER_SIZE + |d.stored| + |d.data| + |Pad(d)|
  }

  function RawOf(d: Draft, pos: nat): Raw {
    Raw(d.header.token, d.kind, if d.kind.NameInFront? then Some(d.stored) else None, |d.data|,
        pos + HEADER_SIZE + |d.stored|, d.header.modified, d.header.mode)
  }

  /** Where the parts of a printed member stand. */
  lemma {:induction false} PartsStand(bytes: string, pos: nat, d: Draft, rest: string)
    requires |d.printed| == HEADER_SIZE && StandsAt(bytes, pos, PrintDraft(d, rest))
    ensures StandsAt(bytes, pos + HEADER_SIZE, d.stored + (d.data + (Pad(d) + rest)))
    ensures StandsAt(bytes, pos + HEADER_SIZE + |d.stored|, d.data + (Pad(d) + rest))
    ensures StandsAt(bytes, pos + HEADER_SIZE + |d.stored| + |d.data|, Pad(d) + rest)
    ensures StandsAt(bytes, pos + DraftSize(d), rest)
  {
    var at := pos + HEADER_SIZE;
    Past(bytes, pos, d.printed, d.stored + (d.data + (Pad(d) + rest)));
    Past(bytes, at, d.stored, d.data + (Pad(d) + rest));
    Past(bytes, at + |d.stored|, d.data, Pad(d) + rest);
    Past(bytes, at + |d.stored| + |d.data|, Pad(d), rest);
  }

  lemma {:induction false} PieceAt(bytes: string, pos: nat, piece: string, rest: string)
    requires StandsAt(bytes, pos, piece + rest)
    ensures pos + |piece| <= |bytes| && bytes[pos..pos + |piece|] == piece
  {
    assert bytes[pos..pos + |piece|] == bytes[pos..][..|piece|];
  }

  lemma {:induction false} PaddingAt(bytes: string, pos: nat, d: Draft, rest: string)
    requires StandsAt(bytes, pos, Pad(d) + rest)
    ensures |Pad(d)| == 1 ==> pos < |bytes| && bytes[pos] == '\n'
  {
    assert |Pad(d)| == 1 ==> bytes[pos..][0] == '\n';
  }

  /** The bytes of a member, cut out of the archive. */
  ghost predicate CutOut(bytes: string, pos: nat, d: Draft) {
    var at := pos + HEADER_SIZE;
    && pos + DraftSize(d) <= |bytes|
    && bytes[pos..at] == d.printed && bytes[at..at + |d.stored|] == d.stored
    && bytes[at + |d.stored|..at + |d.stored| + |d.data|] == d.data
    && (|Pad(d)| == 1 ==> bytes[at + |d.stored| + |d.data|] == '\n')
  }

  lemma {:induction false} StandingIsCutOut(bytes: string, pos: nat, d: Draft, rest: string)
    requires |d.printed| == HEADER_SIZE && StandsAt(bytes, pos, PrintDraft(d, rest))
    ensures CutOut(bytes, pos, d)
  {
    PartsStand(bytes, pos, d, rest);
    PieceAt(bytes, pos, d.printed, d.stored + (d.data + (Pad(d) + rest)));
    PieceAt(bytes, pos + HEADER_SIZE, d.stored, d.data + (Pad(d) + rest));
    PieceAt(bytes, pos + HEADER_SIZE + |d.stored|, d.data, Pad(d) + rest);
    PaddingAt(bytes, pos + HEADER_SIZE + |d.stored| + |d.data|, d, rest);
  }

  lemma {:induction false} MemberFrom(bytes: string, pos: nat, read: HeaderReader, h: Header)
    requires pos + HEADER_SIZE <= |bytes| && read(bytes[pos..pos + HEADER_SIZE]) == Ok(h)
    ensures ReadMember(bytes, pos, read) == ReadBody(bytes, pos + HEADER_SIZE, h)
  {
  }

  lemma {:induction false} DraftIsMember(bytes: string, pos: nat, h: Header, d: Draft)
    requires h == d.header && h.size == |d.stored| + |d.data| && NameLength(d.kind) == |d.stored|
    requires pos + HEADER_SIZE + h.size <= |bytes|
    requires bytes[pos + HEADER_SIZE..pos + HEADER_SIZE + |d.stored|] == d.stored
    requires d.kind.NameInFront? ==> DropTrailing(d.stored, '\0') == d.stored
    ensures MemberOf(bytes, pos + HEADER_SIZE, h, d.kind) == Member(RawOf(d, pos), pos + DraftSize(d))
  {
  }

  /** A printed member reads back. */
  lemma {:induction false} MemberReads(bytes: string, pos: nat, d: Draft, read: HeaderReader)
    requires Understood(d, read) && CutOut(bytes, pos, d)
    ensures ReadMember(bytes, pos, read) == Ok(Member(RawOf(d, pos), pos + DraftSize(d)))
  {
    DraftFits(bytes, pos, d);
    MemberFrom(bytes, pos, read, d.header);
    BodyReads(bytes, pos + HEADER_SIZE, d.header, d.kind);
    DraftIsMember(bytes, pos, d.header, d);
  }

  lemma {:induction false} BodyReads(bytes: string, data: nat, h: Header, kind: Kind)
    requires h.kind == Ok(kind) && data + h.size + h.size % 2 <= |bytes| && NameLength(kind) <= h.size
    requires h.size % 2 == 1 ==> bytes[data + h.size] == '\n'
    ensures ReadBody(bytes, data, h) == Ok(MemberOf(bytes, data, h, kind))
  {
  }

  lemma {:induction false} DraftFits(bytes: string, pos: nat, d: Draft)
    requires CutOut(bytes, pos, d) && d.header.size == |d.stored| + |d.data|
    ensures pos + HEADER_SIZE + d.header.size + d.header.size % 2 <= |bytes|
    ensures d.header.size % 2 == 1 ==> bytes[pos + HEADER_SIZE + d.header.size] == '\n'
  {
    assert pos + HEADER_SIZE + |d.stored| + |d.data| == pos + HEADER_SIZE + d.header.size;
  }

  // ----- archives

  function PrintDrafts(drafts: seq<Draft>): string {
    if drafts == [] then "" else PrintDraft(drafts[0], PrintDrafts(drafts[1..]))
  }

  function TableOf(d: Draft, table: string): string {
    if d.kind.StringTable? then d.data else table
  }

  function LastTable(drafts: seq<Draft>, table: string): string
    decreases |drafts|
  {
    if drafts == [] then table else LastTable(drafts[1..], TableOf(drafts[0], table))
  }

  function RawsOf(drafts: seq<Draft>, pos: nat): seq<Raw>
    decreases |drafts|
  {
    if drafts == [] then [] else Listed(RawOf(drafts[0], pos)) + RawsOf(drafts[1..], pos + DraftSize(drafts[0]))
  }

  ghost predicate AllUnderstood(drafts: seq<Draft>, read: HeaderReader) {
    forall i :: 0 <= i < |drafts| ==> Understood(drafts[i], read)
  }

  lemma {:induction false} TableReads(bytes: string, pos: nat, d: Draft, table: string)
    requires CutOut(bytes, pos, d)
    ensures RawOf(d, pos).dataOffset + RawOf(d, pos).size <= |bytes|
    ensures TableAfter(bytes, RawOf(d, pos), table) == TableOf(d, table)
  {
  }

  lemma {:induction false} DraftStands(bytes: string, pos: nat, d: Draft, rest: string)
    requires |d.printed| == HEADER_SIZE && StandsAt(bytes, pos, PrintDraft(d, rest))
    ensures CutOut(bytes, pos, d) && StandsAt(bytes, pos + DraftSize(d), rest)
  {
    StandingIsCutOut(bytes, pos, d, rest);
    PartsStand(bytes, pos, d, rest);
  }

  lemma {:induction false} CutOutScans(bytes: string, pos: nat, d: Draft, table: string, read: HeaderReader)
    requires Understood(d, read) && CutOut(bytes, pos, d)
    ensures pos + DraftSize(d) <= |bytes|
    ensures var more := Scan(bytes, pos + DraftSize(d), TableOf(d, table), read);
            Scan(bytes, pos, table, read) ==
            if more.Err? then more else Ok(Scanned(Listed(RawOf(d, pos)) + more.value.raws, more.value.table))
  {
    MemberReads(bytes, pos, d, read);
    TableReads(bytes, pos, d, table);
    ScanStep(bytes, pos, table, read, Member(RawOf(d, pos), pos + DraftSize(d)));
  }

  /** The members stand one after the other, up to the end of the archive. */
  ghost predicate Standing(bytes: string, pos: nat, drafts: seq<Draft>)
    decreases |drafts|
  {
    if drafts == [] then pos == |bytes|
    else CutOut(bytes, pos, drafts[0]) && Standing(bytes, pos + DraftSize(drafts[0]), drafts[1..])
  }

  ghost predicate HeadersFit(drafts: seq<Draft>) {
    forall i :: 0 <= i < |drafts| ==> |drafts[i].printed| == HEADER_SIZE
  }

  lemma {:induction false} FirstStands(bytes: string, pos: nat, drafts: seq<Draft>)
    requires drafts != [] && |drafts[0].printed| == HEADER_SIZE && StandsAt(bytes, pos, PrintDrafts(drafts))
    ensures CutOut(bytes, pos, drafts[0])
    ensures StandsAt(bytes, pos + DraftSize(drafts[0]), PrintDrafts(drafts[1..]))
  {
    DraftStands(bytes, pos, drafts[0], PrintDrafts(drafts[1..]));
  }

  lemma {:induction false} StandingFirst(bytes: string, pos: nat, drafts: seq<Draft>)
    requires drafts != [] && CutOut(bytes, pos, drafts[0])
    requires Standing(bytes, pos + DraftSize(drafts[0]), drafts[1..])
    ensures Standing(bytes, pos, drafts)
  {
  }

  lemma {:induction false} PrintedStand(bytes: string, pos: nat, drafts: seq<Draft>)
    requires HeadersFit(drafts) && StandsAt(bytes, pos, PrintDrafts(drafts))
    ensures Standing(bytes, pos, drafts)
    decreases |drafts|
  {
    if drafts == [] {
      assert |bytes[pos..]| == 0;
    } else {
      FirstStands(bytes, pos, drafts);
      PrintedStand(bytes, pos + DraftSize(drafts[0]), drafts[1..]);
      StandingFirst(bytes, pos, drafts);
    }
  }

  /** From this position on, scanning finds the entries and the last table of the
      members, whatever table was seen before. */
  ghost predicate Yields(bytes: string, pos: nat, drafts: seq<Draft>, read: HeaderReader) {
    pos <= |bytes| &&
    forall table :: Scan(bytes, pos, table, read) == Ok(Scanned(RawsOf(drafts, pos), LastTable(drafts, table)))
  }

  lemma {:induction false} YieldsFirst(bytes: string, pos: nat, drafts: seq<Draft>, read: HeaderReader)
    requires drafts != [] && Understood(drafts[0], read) && CutOut(bytes, pos, drafts[0])
    requires Yields(bytes, pos + DraftSize(drafts[0]), drafts[1..], read)
    ensures Yields(bytes, pos, drafts, read)
  {
    var d := drafts[0];
    forall table
      ensures Scan(bytes, pos, table, read) == Ok(Scanned(RawsOf(drafts, pos), LastTable(drafts, table)))
    {
      CutOutScans(bytes, pos, d, table, read);
      assert Scan(bytes, pos + DraftSize(d), TableOf(d, table), read).Ok?;
    }
  }

  lemma {:induction false} YieldsNothing(bytes: string, read: HeaderReader)
    ensures Yields(bytes, |bytes|, [], read)
  {
  }

  /** Scanning printed members finds the entries in order and the last table. */
  lemma {:induction false} DraftsScan(bytes: string, pos: nat, drafts: seq<Draft>, read: HeaderReader)
    requires AllUnderstood(drafts, read) && Standing(bytes, pos, drafts)
    ensures Yields(bytes, pos, drafts, read)
    decreases |drafts|
  {
    if drafts == [] {
      YieldsNothing(bytes, read);
    } else {
      DraftsScan(bytes, pos + DraftSize(drafts[0]), drafts[1..], read);
      YieldsFirst(bytes, pos, drafts, read);
    }
  }

  // ----- names

  lemma {:induction false} FirstLineOf(name: string, rest: string)
    requires '\n' !in name
    ensures FirstLine(name + "\n" + rest) == name
    decreases |name|
  {
    var s := name + "\n" + rest;
    if name != "" {
      assert s[0] == name[0] && s[1..] == name[1..] + "\n" + rest;
      assert name[0] in name;
      FirstLineOf(name[1..], rest);
    }
  }

  lemma {:induction false} TableNames(table: string, offset: nat, name: string)
    requires InTable(table, offset, name) && EndsClean(name, '/')
    ensures DropTrailing(FirstLine(table[offset..]), '/') == name
  {
    var rest :| table[offset..] in {name + "/\n" + rest, name + "\n" + rest};
    if table[offset..] == name + "\n" + rest {
      FirstLineOf(name, rest);
    } else {
      assert name + "/\n" + rest == (name + "/") + "\n" + rest;
      FirstLineOf(name + "/", rest);
      SlashDrops(name);
    }
  }

  lemma {:induction false} SlashDrops(name: string)
    requires EndsClean(name, '/')
    ensures DropTrailing(name + "/", '/') == name && DropTrailing(name, '/') == name
  {
    assert (name + "/")[..|name|] == name;
  }

  /** Each of the three encodings gives the name back. */
  lemma {:induction false} NameReads(item: Item, raw: Raw, table: string)
    requires item.File? && ValidItem(item, table) && raw.token == Token(item)
    requires raw.bsdName == if item.form.Bsd? then Some(item.name) else None
    ensures NameOf(raw, table) == item.name
  {
    SlashDrops(item.name);
    if item.form.Gnu? {
      ParseDecimal(item.form.offset);
      assert Token(item)[0] == '/' && Token(item)[1..] == Decimal(item.form.offset);
      TableNames(table, item.form.offset, item.name);
    }
  }

  function Drafted(item: Item): Draft
    requires ValidColumns(ColumnsOf(item))
  {
    Draft(PrintColumns(ColumnsOf(item)), HeaderOf(item), KindOf(item),
          StoredName(item), DataOf(item), if item.File? then item.name else "")
  }

  lemma {:induction false} DraftsAreUnderstood(item: Item, table: string)
    requires ValidItem(item, table)
    ensures Understood(Drafted(item), ReadHeader)
  {
    HeaderReads(item, table);
  }

  /** The member is listed, under its own name, exactly when it has one. */
  ghost predicate GoesByName(d: Draft, naming: Raw -> string) {
    && (d.kind.StringTable? || d.kind.SymbolTable? <==> d.name == "")
    && (d.name != "" ==> forall pos :: naming(RawOf(d, pos)) == d.name)
  }

  lemma {:induction false} DraftsGoByName(item: Item, table: string)
    requires ValidItem(item, table)
    ensures GoesByName(Drafted(item), Naming(table))
  {
    if item.File? {
      forall pos: nat ensures NameOf(RawOf(Drafted(item), pos), table) == item.name {
        NameReads(item, RawOf(Drafted(item), pos), table);
      }
    }
  }

  /** The entry a member is listed as. */
  function EntryAt(d: Draft, pos: nat, index: nat): Entry {
    Entry(index, d.name, |d.data|, pos + HEADER_SIZE + |d.stored|, d.header.modified, d.header.mode)
  }

  function ExpectedEntries(drafts: seq<Draft>, pos: nat, index: nat): seq<Entry>
    decreases |drafts|
  {
    if drafts == [] then []
    else if drafts[0].name == "" then ExpectedEntries(drafts[1..], pos + DraftSize(drafts[0]), index)
    else [EntryAt(drafts[0], pos, index)] + ExpectedEntries(drafts[1..], pos + DraftSize(drafts[0]), index + 1)
  }

  ghost predicate AllNamed(drafts: seq<Draft>, naming: Raw -> string) {
    forall i :: 0 <= i < |drafts| ==> GoesByName(drafts[i], naming)
  }

  /** The names of the members that have one. */
  function NameList(drafts: seq<Draft>): seq<string> {
    if drafts == [] then [] else (if drafts[0].name == "" then [] else [drafts[0].name]) + NameList(drafts[1..])
  }

  lemma {:induction false} NamesAppend(a: seq<Raw>, b: seq<Raw>, naming: Raw -> string)
    ensures NamesOf(a + b, naming) == NamesOf(a, naming) + NamesOf(b, naming)
  {
  }

  lemma {:induction false} FirstName(d: Draft, pos: nat, naming: Raw -> string)
    requires GoesByName(d, naming)
    ensures NamesOf(Listed(RawOf(d, pos)), naming) == if d.name == "" then [] else [d.name]
  {
    assert d.name != "" ==> naming(RawOf(d, pos)) == d.name;
  }

  lemma {:induction false} NamesAgree(drafts: seq<Draft>, pos: nat, naming: Raw -> string)
    requires AllNamed(drafts, naming)
    ensures NamesOf(RawsOf(drafts, pos), naming) == NameList(drafts)
    decreases |drafts|
  {
    if drafts != [] {
      var next := pos + DraftSize(drafts[0]);
      FirstName(drafts[0], pos, naming);
      NamesAppend(Listed(RawOf(drafts[0], pos)), RawsOf(drafts[1..], next), naming);
      NamesAgree(drafts[1..], next, naming);
    }
  }

  lemma {:induction false} NumberedStep(raw: Raw, more: seq<Raw>, name: string, names: seq<string>, index: nat)
    requires name != "" && |more| == |names| && Numbered(more, names, index + 1).Ok?
    ensures Numbered([raw] + more, [name] + names, index) ==
            Ok([EntryOf(raw, name, index)] + Numbered(more, names, index + 1).value)
  {
    assert ([raw] + more)[1..] == more && ([name] + names)[1..] == names;
  }

  ghost predicate KindsNamed(drafts: seq<Draft>) {
    forall i :: 0 <= i < |drafts| ==>
      (drafts[i].kind.StringTable? || drafts[i].kind.SymbolTable? <==> drafts[i].name == "")
  }

  lemma {:induction false} DraftsNumbered(drafts: seq<Draft>, pos: nat, index: nat)
    requires KindsNamed(drafts)
    ensures |RawsOf(drafts, pos)| == |NameList(drafts)|
    ensures Numbered(RawsOf(drafts, pos), NameList(drafts), index) == Ok(ExpectedEntries(drafts, pos, index))
    decreases |drafts|
  {
    if drafts != [] {
      var d, next := drafts[0], pos + DraftSize(drafts[0]);
      var raws, names := RawsOf(drafts[1..], next), NameList(drafts[1..]);
      if d.name == "" {
        DraftsNumbered(drafts[1..], next, index);
        assert [] + raws == raws && [] + names == names;
      } else {
        DraftsNumbered(drafts[1..], next, index + 1);
        NumberedStep(RawOf(d, pos), raws, d.name, names, index);
      }
    }
  }

  // ----- round trip

  ghost predicate ValidItems(items: seq<Item>, table: string) {
    forall i :: 0 <= i < |items| ==> ValidItem(items[i], table)
  }

  ghost predicate FitColumns(items: seq<Item>) {
    forall i :: 0 <= i < |items| ==> ValidColumns(ColumnsOf(items[i]))
  }

  ghost function Drafts(items: seq<Item>): (drafts: seq<Draft>)
    requires FitColumns(items)
    ensures |drafts| == |items| && forall i :: 0 <= i < |items| ==> drafts[i] == Drafted(items[i])
  {
    seq(|items|, i requires 0 <= i < |items| => Drafted(items[i]))
  }

  /** The text of the last string table among the items. */
  function TableText(items: seq<Item>, table: string): string
    decreases |items|
  {
    if items == [] then table else TableText(items[1..], if items[0].Table? then items[0].text else table)
  }

  lemma {:induction false} TableTextIsLast(items: seq<Item>, drafts: seq<Draft>, table: string)
    requires |items| == |drafts|
    requires forall i :: 0 <= i < |items| ==> drafts[i].kind == KindOf(items[i]) && drafts[i].data == DataOf(items[i])
    ensures LastTable(drafts, table) == TableText(items, table)
    decreases |items|
  {
    if items != [] {
      TableTextIsLast(items[1..], drafts[1..], TableOf(drafts[0], table));
    }
  }

  ghost function PrintArchive(items: seq<Item>): string
    requires FitColumns(items)
  {
    FILE_MAGIC + PrintDrafts(Drafts(items))
  }

  lemma {:induction false} ItemsAreGood(items: seq<Item>, table: string)
    requires ValidItems(items, table)
    ensures FitColumns(items) && AllUnderstood(Drafts(items), ReadHeader) && AllNamed(Drafts(items), Naming(table))
    ensures LastTable(Drafts(items), "") == TableText(items, "")
  {
    var drafts := Drafts(items);
    forall i | 0 <= i < |items|
      ensures Understood(drafts[i], ReadHeader) && GoesByName(drafts[i], Naming(table))
    {
      DraftsAreUnderstood(items[i], table);
      DraftsGoByName(items[i], table);
    }
    TableTextIsLast(items, drafts, "");
  }

  /** Reading a printed archive gives its files in order with their names, sizes,
      payload offsets, times and modes, whatever mix of name encodings they use
      and wherever the string table stands. */
  lemma {:induction false} ArchiveRoundTrip(items: seq<Item>)
    requires ValidItems(items, TableText(items, ""))
    ensures Archive(PrintArchive(items)) == Ok(ExpectedEntries(Drafts(items), 8, 0))
  {
    var table, drafts := TableText(items, ""), Drafts(items);
    ItemsAreGood(items, table);
    ScanOfDrafts(drafts);
    NamesAgree(drafts, 8, Naming(table));
    DraftsNumbered(drafts, 8, 0);
  }

  lemma {:induction false} ScanOfDrafts(drafts: seq<Draft>)
    requires AllUnderstood(drafts, ReadHeader)
    ensures MAGIC <= FILE_MAGIC + PrintDrafts(drafts)
    ensures Scan(FILE_MAGIC + PrintDrafts(drafts), 8, "", ReadHeader) ==
            Ok(Scanned(RawsOf(drafts, 8), LastTable(drafts, "")))
  {
    var bytes := FILE_MAGIC + PrintDrafts(drafts);
    assert StandsAt(bytes, 8, PrintDrafts(drafts));
    PrintedStand(bytes, 8, drafts);
    DraftsScan(bytes, 8, drafts, ReadHeader);
  }

  /** Each entry of a printed archive describes one of its members in turn, and
      the payload lies at the entry's offset. */
  ghost predicate Matches(bytes: string, entries: seq<Entry>, drafts: seq<Draft>)
    decreases |drafts|
  {
    if drafts == [] then entries == []
    else if drafts[0].name == "" then Matches(bytes, entries, drafts[1..])
    else
      && entries != [] && Holds(bytes, entries[0], drafts[0])
      && Matches(bytes, entries[1..], drafts[1..])
  }

  ghost predicate Holds(bytes: string, e: Entry, d: Draft) {
    && e.path == d.name && e.size == |d.data|
    && e.dataOffset + e.size <= |bytes| && bytes[e.dataOffset..e.dataOffset + e.size] == d.data
  }

  lemma {:induction false} PayloadsInPlace(bytes: string, pos: nat, drafts: seq<Draft>, index: nat)
    requires Standing(bytes, pos, drafts)
    ensures Matches(bytes, ExpectedEntries(drafts, pos, index), drafts)
    decreases |drafts|
  {
    if drafts != [] {
      var d, next := drafts[0], pos + DraftSize(drafts[0]);
      FirstHolds(bytes, pos, d, index);
      PayloadsInPlace(bytes, next, drafts[1..], if d.name == "" then index else index + 1);
      assert d.name != "" ==> ExpectedEntries(drafts, pos, index)[1..] == ExpectedEntries(drafts[1..], next, index + 1);
    }
  }

  lemma {:induction false} FirstHolds(bytes: string, pos: nat, d: Draft, index: nat)
    requires CutOut(bytes, pos, d)
    ensures Holds(bytes, EntryAt(d, pos, index), d)
  {
  }

  /** Every entry of a printed archive finds the payload of its file. */
  lemma {:induction false} PrintedPayloads(items: seq<Item>)
    requires ValidItems(items, TableText(items, ""))
    ensures Matches(PrintArchive(items), ExpectedEntries(Drafts(items), 8, 0), Drafts(items))
  {
    ItemsAreGood(items, TableText(items, ""));
    assert StandsAt(PrintArchive(items), 8, PrintDrafts(Drafts(items)));
    PrintedStand(PrintArchive(items), 8, Drafts(items));
    PayloadsInPlace(PrintArchive(items), 8, Drafts(items), 0);
  }
}
