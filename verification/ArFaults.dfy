/** AR archives that go wrong, and the problem each fault is reported with. */
module ArFaults {

  import opened Wrappers
  import opened Text
  import opened Ar
  import opened ArForms

  /** An archive without its magic is refused, and only such an archive for that. */
  lemma {:induction false} MissingMagicIff(bytes: string)
    ensures Archive(bytes) == Err(MissingMagic) <==> !("!<arch>\n" <= bytes)
  {
    if "!<arch>\n" <= bytes {
      var s := Scan(bytes, 8, "", ReadHeader);
      ScanFindsMagic(bytes, 8, "");
      if s.Ok? {
        NumberedFindsMagic(s.value.raws, NamesOf(s.value.raws, Naming(s.value.table)), 0);
      }
    }
  }

  lemma {:induction false} ScanFindsMagic(bytes: string, pos: nat, table: string)
    requires pos <= |bytes|
    ensures Scan(bytes, pos, table, ReadHeader) != Err(MissingMagic)
    decreases |bytes| - pos
  {
    if pos < |bytes| {
      MemberFindsMagic(bytes, pos);
      var m := ReadMember(bytes, pos, ReadHeader);
      if m.Ok? {
        ScanFindsMagic(bytes, m.value.end, TableAfter(bytes, m.value.raw, table));
      }
    }
  }

  lemma {:induction false} MemberFindsMagic(bytes: string, pos: nat)
    requires pos <= |bytes|
    ensures ReadMember(bytes, pos, ReadHeader) != Err(MissingMagic)
  {
  }

  lemma {:induction false} NumberedFindsMagic(raws: seq<Raw>, names: seq<string>, index: nat)
    requires |raws| == |names|
    ensures Numbered(raws, names, index) != Err(MissingMagic)
    decreases |raws|
  {
    if raws != [] {
      NumberedFindsMagic(raws[1..], names[1..], index + 1);
    }
  }

  // ----- faulty members

  /** What is wrong with a member.  The columns are the texts of its header, and
      `size` the number its size column holds. */
  datatype Fault =
    | ShortHeader(text: string)
    | NoTrailer(text: string)
    | BadField(columns: Columns, text: string)
    | TooLong(columns: Columns, size: nat, text: string)
    | BadLength(columns: Columns, size: nat, number: string, text: string)
    | LongName(columns: Columns, size: nat, length: nat, text: string)
    | WrongPadding(columns: Columns, size: nat, text: string)

  /** Something in an octal column is no digit. */
  ghost predicate IsStrangeOctal(s: string) {
    exists i :: 0 <= i < |s| && s[i] !in {'0', '1', '2', '3', '4', '5', '6', '7', '+'}
  }

  ghost predicate TidyColumns(c: Columns) {
    ValidColumns(c) && IsTidy(c.token) && IsTidy(c.modified) && IsTidy(c.mode) && IsTidy(c.size)
  }

  /** The columns hold numbers, and the size column this one. */
  ghost predicate GoodColumns(c: Columns, size: nat) {
    && TidyColumns(c) && size < U64_LIMIT && c.size == Decimal(size)
    && (exists n: nat :: n < U64_LIMIT && c.modified == Decimal(n))
    && (exists n: nat :: n < 0x1_0000_0000 && c.mode == Octal(n))
  }

  ghost predicate ValidFault(f: Fault) {
    match f
    case ShortHeader(text) => 0 < |text| < 60
    case NoTrailer(text) => |text| >= 60 && text[58..60] != "`\n"
    case BadField(c, _) => TidyColumns(c) && (IsNoU64(c.modified) || IsStrangeOctal(c.mode) || IsNoU64(c.size))
    case TooLong(c, size, text) => GoodColumns(c, size) && |text| < size + size % 2
    case BadLength(c, size, number, text) =>
      GoodColumns(c, size) && size + size % 2 <= |text| && c.token == "#1/" + number && IsNoU64(number)
    case LongName(c, size, length, text) =>
      && GoodColumns(c, size) && size + size % 2 <= |text| && c.token == "#1/" + Decimal(length)
      && size < length < U64_LIMIT
    case WrongPadding(c, size, text) =>
      GoodColumns(c, size) && size % 2 == 1 && size < |text| && text[size] != '\n' && !("#1/" <= c.token)
  }

  /** The rest of the archive from the faulty member on. */
  function FaultText(f: Fault): string
    requires f.ShortHeader? || f.NoTrailer? || ValidColumns(f.columns)
  {
    if f.ShortHeader? || f.NoTrailer? then f.text else PrintColumns(f.columns) + f.text
  }

  function ProblemOf(f: Fault): Problem {
    match f
    case ShortHeader(_) => TruncatedHeader
    case NoTrailer(_) => BadTrailer
    case BadField(_, _) => BadNumber
    case TooLong(_, _, _) => BeyondArchive
    case BadLength(_, _, _, _) => BadNameLength
    case LongName(_, _, _, _) => NameExceedsMember
    case WrongPadding(_, _, _) => BadPadding
  }

  // ----- headers

  lemma {:induction false} StrangeOctal(s: string)
    requires IsTidy(s) && IsStrangeOctal(s) && |s| <= 8
    ensures ParseOctal(Padded(s, 8)) == Err(BadNumber)
  {
    TrimField(s, 8);
    var i :| 0 <= i < |s| && s[i] !in {'0', '1', '2', '3', '4', '5', '6', '7', '+'};
    var k := StrangeStays(s, i);
    var text := DropLeading(s, '0');
    assert !IsDigit(text[k], 8) && text[k] != '+';
    assert text[0] == '+' ==> text[1..][k - 1] == text[k];
  }

  lemma {:induction false} StrangeStays(s: string, i: nat) returns (k: nat)
    requires i < |s| && s[i] != '0'
    ensures k < |DropLeading(s, '0')| && DropLeading(s, '0')[k] == s[i]
    decreases |s|
  {
    if s[0] == '0' {
      k := StrangeStays(s[1..], i - 1);
    } else {
      k := i;
    }
  }

  lemma {:induction false} StrangeNumber(s: string, width: nat)
    requires IsTidy(s) && IsNoU64(s) && |s| <= width
    ensures ParseNumber(Padded(s, width)) == Err(BadNumber)
  {
    TrimField(s, width);
    NoU64(s);
  }

  lemma {:induction false} NumbersFailAlike(field: string)
    ensures ParseNumber(field).Err? ==> ParseNumber(field) == Err(BadNumber)
    ensures ParseOctal(field).Err? ==> ParseOctal(field) == Err(BadNumber)
  {
  }

  lemma {:induction false} BadFieldFails(c: Columns)
    requires TidyColumns(c) && (IsNoU64(c.modified) || IsStrangeOctal(c.mode) || IsNoU64(c.size))
    ensures ReadHeader(PrintColumns(c)) == Err(BadNumber)
  {
    ColumnSlices(c);
    NumbersFailAlike(Padded(c.modified, 12));
    NumbersFailAlike(Padded(c.mode, 8));
    NumbersFailAlike(Padded(c.size, 10));
    if IsNoU64(c.modified) {
      StrangeNumber(c.modified, 12);
    } else if IsStrangeOctal(c.mode) {
      StrangeOctal(c.mode);
    } else {
      StrangeNumber(c.size, 10);
    }
  }

  lemma {:induction false} GoodColumnsRead(c: Columns, size: nat)
    requires GoodColumns(c, size)
    ensures ReadHeader(PrintColumns(c)).Ok?
    ensures var h := ReadHeader(PrintColumns(c)).value;
            h.size == size && h.token == c.token && h.kind == Classify(c.token)
  {
    var m: nat :| m < U64_LIMIT && c.modified == Decimal(m);
    var o: nat :| o < 0x1_0000_0000 && c.mode == Octal(o);
    ColumnSlices(c);
    TrimField(c.token, 16);
    NumberReads(m, 12);
    OctalReads(o, 8);
    NumberReads(size, 10);
  }

  lemma {:induction false} TokenFails(f: Fault)
    requires ValidFault(f) && (f.BadLength? || f.LongName?)
    ensures Classify(f.columns.token) == if f.BadLength? then Err(BadNameLength) else Ok(NameInFront(f.length))
  {
    var token := f.columns.token;
    if f.BadLength? {
      assert token[..3] == "#1/" && token[3..] == f.number;
      NoU64(f.number);
    } else {
      assert token[..3] == "#1/" && token[3..] == Decimal(f.length);
      ParseDecimal(f.length);
    }
  }

  // ----- members

  lemma {:induction false} HeaderStands(bytes: string, pos: nat, f: Fault)
    requires !f.ShortHeader? && !f.NoTrailer? && ValidColumns(f.columns) && StandsAt(bytes, pos, FaultText(f))
    ensures pos + 60 <= |bytes| && bytes[pos..pos + 60] == PrintColumns(f.columns) && |bytes| - (pos + 60) == |f.text|
    ensures forall i :: 0 <= i < |f.text| ==> bytes[pos + 60 + i] == f.text[i]
  {
    PieceAt(bytes, pos, PrintColumns(f.columns), f.text);
    Past(bytes, pos, PrintColumns(f.columns), f.text);
    assert bytes[pos + 60..] == f.text;
  }

  lemma {:induction false} BodyFails(bytes: string, pos: nat, f: Fault)
    requires ValidFault(f) && (f.TooLong? || f.BadLength? || f.LongName? || f.WrongPadding?)
    requires StandsAt(bytes, pos, FaultText(f))
    ensures ReadMember(bytes, pos, ReadHeader) == Err(ProblemOf(f))
  {
    HeaderStands(bytes, pos, f);
    GoodColumnsRead(f.columns, f.size);
    if f.BadLength? || f.LongName? {
      TokenFails(f);
    } else if f.WrongPadding? {
      PlainKind(f.columns.token);
      assert bytes[pos + 60 + f.size] == f.text[f.size];
    }
  }

  lemma {:induction false} PlainKind(token: string)
    requires !("#1/" <= token)
    ensures Classify(token).Ok? && !Classify(token).value.NameInFront?
  {
  }

  lemma {:induction false} MemberFails(bytes: string, pos: nat, f: Fault)
    requires ValidFault(f) && StandsAt(bytes, pos, FaultText(f))
    ensures ReadMember(bytes, pos, ReadHeader) == Err(ProblemOf(f))
  {
    if f.NoTrailer? {
      assert bytes[pos..pos + 60] == f.text[..60] && f.text[..60][58..] == f.text[58..60];
    } else if f.BadField? {
      HeaderStands(bytes, pos, f);
      BadFieldFails(f.columns);
    } else if !f.ShortHeader? {
      BodyFails(bytes, pos, f);
    }
  }

  // ----- behind good members

  function PrintBefore(drafts: seq<Draft>, rest: string): string {
    if drafts == [] then rest else PrintDraft(drafts[0], PrintBefore(drafts[1..], rest))
  }

  lemma {:induction false} DraftPasses(bytes: string, pos: nat, d: Draft, rest: string, table: string, read: HeaderReader)
    requires Understood(d, read) && StandsAt(bytes, pos, PrintDraft(d, rest))
    ensures StandsAt(bytes, pos + DraftSize(d), rest) && RawOf(d, pos).dataOffset + RawOf(d, pos).size <= |bytes|
    ensures var later := Scan(bytes, pos + DraftSize(d), TableAfter(bytes, RawOf(d, pos), table), read);
            later.Err? ==> Scan(bytes, pos, table, read) == later
  {
    DraftStands(bytes, pos, d, rest);
    CutOutPasses(bytes, pos, d, table, read);
  }

  lemma {:induction false} CutOutPasses(bytes: string, pos: nat, d: Draft, table: string, read: HeaderReader)
    requires Understood(d, read) && CutOut(bytes, pos, d)
    ensures RawOf(d, pos).dataOffset + RawOf(d, pos).size <= |bytes| && pos + DraftSize(d) <= |bytes|
    ensures var later := Scan(bytes, pos + DraftSize(d), TableAfter(bytes, RawOf(d, pos), table), read);
            later.Err? ==> Scan(bytes, pos, table, read) == later
  {
    TableReads(bytes, pos, d, table);
    MemberReads(bytes, pos, d, read);
    PassesOn(bytes, pos, table, read, Member(RawOf(d, pos), pos + DraftSize(d)));
  }

  lemma {:induction false} PassesOn(bytes: string, pos: nat, table: string, read: HeaderReader, m: Member)
    requires pos < |bytes| && ReadMember(bytes, pos, read) == Ok(m)
    ensures var later := Scan(bytes, m.end, TableAfter(bytes, m.raw, table), read);
            later.Err? ==> Scan(bytes, pos, table, read) == later
  {
    ScanStep(bytes, pos, table, read, m);
  }

  /** Wherever the text stands, no member can be read from it. */
  ghost predicate Fails(bytes: string, text: string, read: HeaderReader, problem: Problem) {
    text != "" && forall pos: nat :: StandsAt(bytes, pos, text) ==> ReadMember(bytes, pos, read) == Err(problem)
  }

  lemma {:induction false} EndFails(bytes: string, pos: nat, text: string, table: string, read: HeaderReader, problem: Problem)
    requires Fails(bytes, text, read, problem) && StandsAt(bytes, pos, text)
    ensures Scan(bytes, pos, table, read) == Err(problem)
  {
    assert ReadMember(bytes, pos, read) == Err(problem);
  }

  lemma {:induction false} RestUnderstood(drafts: seq<Draft>, read: HeaderReader)
    requires drafts != [] && AllUnderstood(drafts, read)
    ensures AllUnderstood(drafts[1..], read)
  {
  }

  /** Reading on from a good member comes to the next position. */
  lemma {:induction false} NextFails(
    bytes: string, pos: nat, drafts: seq<Draft>, text: string, table: string, read: HeaderReader)
    returns (next: nat, more: string)
    requires drafts != [] && AllUnderstood(drafts, read) && StandsAt(bytes, pos, PrintBefore(drafts, text))
    ensures StandsAt(bytes, next, PrintBefore(drafts[1..], text))
    ensures Scan(bytes, next, more, read).Err? ==> Scan(bytes, pos, table, read) == Scan(bytes, next, more, read)
  {
    var d := drafts[0];
    assert Understood(d, read);
    DraftPasses(bytes, pos, d, PrintBefore(drafts[1..], text), table, read);
    next, more := pos + DraftSize(d), TableAfter(bytes, RawOf(d, pos), table);
  }

  lemma {:induction false} FailsBehind(
    bytes: string, pos: nat, drafts: seq<Draft>, text: string, table: string, read: HeaderReader, problem: Problem)
    requires AllUnderstood(drafts, read) && Fails(bytes, text, read, problem)
    requires StandsAt(bytes, pos, PrintBefore(drafts, text))
    ensures Scan(bytes, pos, table, read) == Err(problem)
    decreases |drafts|
  {
    if drafts == [] {
      EndFails(bytes, pos, text, table, read, problem);
    } else {
      var next, more := NextFails(bytes, pos, drafts, text, table, read);
      RestUnderstood(drafts, read);
      FailsBehind(bytes, next, drafts[1..], text, more, read, problem);
    }
  }

  lemma {:induction false} FaultFails(bytes: string, f: Fault)
    requires ValidFault(f)
    ensures Fails(bytes, FaultText(f), ReadHeader, ProblemOf(f))
  {
    forall pos: nat | StandsAt(bytes, pos, FaultText(f)) ensures ReadMember(bytes, pos, ReadHeader) == Err(ProblemOf(f)) {
      MemberFails(bytes, pos, f);
    }
  }

  /** Behind any good members, a faulty one fails the archive with its problem. */
  lemma {:induction false} FaultIsReported(items: seq<Item>, table: string, f: Fault)
    requires ValidItems(items, table) && FitColumns(items) && ValidFault(f)
    ensures Archive("!<arch>\n" + PrintBefore(Drafts(items), FaultText(f))) == Err(ProblemOf(f))
  {
    var bytes := "!<arch>\n" + PrintBefore(Drafts(items), FaultText(f));
    ItemsAreGood(items, table);
    FaultFails(bytes, f);
    assert StandsAt(bytes, 8, PrintBefore(Drafts(items), FaultText(f)));
    FailsBehind(bytes, 8, Drafts(items), FaultText(f), "", ReadHeader, ProblemOf(f));
  }

  // ----- numbers as writers may put them

  function NoughtsBefore(n: nat, s: string): string {
    if n == 0 then s else "0" + NoughtsBefore(n - 1, s)
  }

  lemma {:induction false} NoughtsDrop(n: nat, s: string)
    requires s != "" && s[0] != '0'
    ensures DropLeading(NoughtsBefore(n, s), '0') == s
    ensures IsTidy(s) ==> IsTidy(NoughtsBefore(n, s))
    decreases n
  {
    if n > 0 {
      NoughtsDrop(n - 1, s);
      var t := NoughtsBefore(n, s);
      assert t[1..] == NoughtsBefore(n - 1, s) && t[|t| - 1] == NoughtsBefore(n - 1, s)[|t| - 2];
    }
  }

  /** Octal columns may have leading zeros, and any number a plus sign. */
  lemma {:induction false} SignedNumbersRead(noughts: nat, n: nat, width: nat)
    requires n < 0x1_0000_0000
    ensures var s := NoughtsBefore(noughts, "+" + Octal(n));
            |s| <= width ==> ParseOctal(Padded(s, width)) == Ok(n)
    ensures var s := "+" + Decimal(n);
            |s| <= width ==> ParseNumber(Padded(s, width)) == Ok(n)
  {
    var s, d := NoughtsBefore(noughts, "+" + Octal(n)), "+" + Decimal(n);
    DigitsAreTidy(Octal(n), 8);
    DigitsAreTidy(Decimal(n), 10);
    NoughtsDrop(noughts, "+" + Octal(n));
    assert ("+" + Octal(n))[1..] == Octal(n) && d[1..] == Decimal(n);
    if |s| <= width {
      TrimField(s, width);
    }
    if |d| <= width {
      TrimField(d, width);
    }
  }

  /** A name beyond the string table stands for itself, and one at its end for
      nothing. */
  lemma {:induction false} TableOffsets(n: nat, table: string)
    requires n < U64_LIMIT
    ensures n > |table| ==> ResolveGnuName("/" + Decimal(n), table) == "/" + Decimal(n)
    ensures n == |table| ==> ResolveGnuName("/" + Decimal(n), table) == ""
  {
    var token := "/" + Decimal(n);
    assert token[1..] == Decimal(n);
    ParseDecimal(n);
    if n == |table| {
      assert table[n..] == "" && FirstLine("") == "";
    }
  }

  // ----- members without a name

  /** A member whose name is nothing but slashes is refused, whatever the others are
      called. */
  lemma {:induction false} EmptyNameFails(raws: seq<Raw>, names: seq<string>, index: nat)
    requires |raws| == |names|
    ensures Numbered(raws, names, index) == Err(EmptyName) <==> "" in names
    decreases |raws|
  {
    if raws != [] {
      EmptyNameFails(raws[1..], names[1..], index + 1);
    }
  }
}
