/** Archives that go wrong: which format is detected, and the problem each kind of
    faulty record is reported with. */
module CpioFaults {

  import opened Wrappers
  import Text
  import opened Cpio
  import opened CpioForms

  // ----- detection

  /** The format is the one whose magic the archive starts with. */
  lemma {:induction false} DetectIff(bytes: string, format: Format)
    ensures Detect(bytes) == Ok(format) <==> |bytes| >= 6 && PrintMagic(format) <= bytes
    ensures Detect(bytes) == Err(Truncated) <==> |bytes| < 6
  {
    MagicIsPrinted(format);
    if |bytes| >= 6 && PrintMagic(format) <= bytes {
      DetectsFormat(format, bytes);
    }
    if Detect(bytes) == Ok(format) {
      assert bytes[..|Magic(format)|] == Magic(format);
    }
  }

  lemma {:induction false} MagicIsPrinted(format: Format)
    ensures PrintMagic(format) == Magic(format)
  {
  }

  // ----- faulty records

  datatype Fault =
    | ShortHeader(text: string)
    | OtherMagic(text: string)
    | StrangeNumber(values: seq<nat>, bad: string, text: string)
    | NameLength(n: Numbers, text: string)
    | ShortName(n: Numbers, text: string)
    | NoEnd(n: Numbers, name: string, text: string)
    | ShortTarget(m: Member, text: string)

  function ColumnBase(format: Format): Base {
    if format.Odc? then Octal else Hex
  }

  function ColumnWidths(format: Format): seq<nat> {
    if format.Odc? then ODC_WIDTHS else EIGHTS
  }

  /** Which columns the reader looks at. */
  predicate IsRead(format: Format, i: nat) {
    format.Odc? ==> i !in {3, 4, 6}
  }

  predicate ColumnFits(format: Format, values: seq<nat>, i: nat)
    requires i < |values| <= |ColumnWidths(format)|
  {
    values[i] < Limit(ColumnBase(format), ColumnWidths(format)[i])
  }

  /** Something in the column is no digit. */
  ghost predicate IsStrange(base: Base, s: string) {
    Text.IsTidy(s) && exists i :: 0 < i < |s| && s[i] !in DigitsOf(base)
  }

  ghost predicate ValidFault(format: Format, f: Fault) {
    match f
    case ShortHeader(text) => |text| < HeaderSize(format)
    case OtherMagic(text) => |text| >= HeaderSize(format) && !(PrintMagic(format) <= text)
    case StrangeNumber(values, bad, text) =>
      var i := |values|;
      && !format.Binary? && i < |ColumnWidths(format)| && IsRead(format, i)
      && (forall k :: 0 <= k < i ==> ColumnFits(format, values, k))
      && |bad| == ColumnWidths(format)[i] && IsStrange(ColumnBase(format), bad)
      && |FaultText(format, f)| >= HeaderSize(format)
    case NameLength(n, _) => NumbersFit(format, n) && (n.nameSize == 0 || n.nameSize > 0x100_0000)
    case ShortName(n, text) => NumbersFit(format, n) && |text| < n.nameSize <= 0x100_0000
    case NoEnd(n, name, _) => NumbersFit(format, n) && 0 < n.nameSize == |name| <= 0x100_0000 && name[|name| - 1] != '\0'
    case ShortTarget(m, text) => ValidMember(format, m) && m.sort.SymbolicLink? && |text| < |m.data|
  }

  /** The rest of the archive from the faulty record on. */
  function FaultText(format: Format, f: Fault): string {
    match f
    case ShortHeader(text) => text
    case OtherMagic(text) => text
    case StrangeNumber(values, bad, text) =>
      if |values| <= |ColumnWidths(format)|
      then PrintMagic(format) + (Columns(ColumnBase(format), ColumnWidths(format)[..|values|], values) + (bad + text))
      else ""
    case NameLength(n, text) => PrintHeader(format, n) + text
    case ShortName(n, text) => PrintHeader(format, n) + text
    case NoEnd(n, name, text) => PrintHeader(format, n) + (name + text)
    case ShortTarget(m, text) =>
      PrintHeader(format, NumbersOf(format, m)) + PrintName(EncodingOf(format), Drafted(format, m), text)
  }

  function ProblemOf(f: Fault): Problem {
    match f
    case ShortHeader(_) => Truncated
    case OtherMagic(_) => BadMagic
    case StrangeNumber(_, _, _) => BadNumber
    case NameLength(_, _) => BadNameLength
    case ShortName(_, _) => Truncated
    case NoEnd(_, _, _) => NoTerminator
    case ShortTarget(_, _) => Truncated
  }

  // ----- numbers that are none

  lemma {:induction false} ReadFieldsFails(fields: seq<Field>, values: seq<nat>, bad: string, tail: string, s: string)
    requires |values| < |fields| && AllFit(fields[..|values|], values)
    requires fields[|values|].Number? && |bad| == Width(fields[|values|]) && IsStrange(fields[|values|].base, bad)
    requires s == PrintFields(fields[..|values|], values) + (bad + tail) && |s| == TotalWidth(fields)
    ensures ReadFields(fields, s) == Err(BadNumber)
    decreases |values|
  {
    var w := Width(fields[0]);
    if values == [] {
      assert s == bad + tail && s[..w] == bad;
      StrangeFails(fields[0], bad);
    } else {
      FirstColumn(fields, values, bad + tail, s);
      PrintedFieldReads(fields[0], values[0]);
      ReadFieldsFails(fields[1..], values[1..], bad, tail, s[w..]);
    }
  }

  lemma {:induction false} StrangeFails(f: Field, bad: string)
    requires f.Number? && |bad| == Width(f) && IsStrange(f.base, bad)
    ensures ReadField(f, bad) == Err(BadNumber)
  {
    var i :| 0 < i < |bad| && bad[i] !in DigitsOf(f.base);
    StrangeField(f.base, bad, i);
  }

  lemma {:induction false} FirstColumn(fields: seq<Field>, values: seq<nat>, tail: string, s: string)
    requires 0 < |values| < |fields| && s == PrintFields(fields[..|values|], values) + tail
    ensures var w := Width(fields[0]);
            && w <= |s| && s[..w] == PrintField(fields[0], values[0])
            && s[w..] == PrintFields(fields[1..][..|values| - 1], values[1..]) + tail
  {
    var first, rest := PrintField(fields[0], values[0]), PrintFields(fields[1..][..|values| - 1], values[1..]);
    assert fields[..|values|][0] == fields[0] && fields[..|values|][1..] == fields[1..][..|values| - 1];
    assert s == first + (rest + tail);
  }

  /** The columns the printed form and the layout agree on. */
  lemma {:induction false} LayoutColumns(format: Format, i: nat)
    requires !format.Binary? && i < |ColumnWidths(format)|
    ensures |Layout(format)| == |ColumnWidths(format)|
    ensures Layout(format)[i] ==
            if IsRead(format, i) then Number(ColumnBase(format), ColumnWidths(format)[i]) else Unread(ColumnWidths(format)[i])
  {
  }

  lemma {:induction false} StrangePieces(text: string, magic: string, columns: string, bad: string, rest: string, size: nat)
    requires text == magic + (columns + (bad + rest)) && |magic| + |columns| + |bad| <= size <= |text|
    ensures text[..|magic|] == magic
    ensures text[|magic|..size] == columns + (bad + text[|magic| + |columns| + |bad|..size])
  {
  }

  /** The printed columns in front of the strange one are the fields in front of it. */
  lemma {:induction false} ColumnsInFront(format: Format, values: seq<nat>)
    requires !format.Binary? && |values| < |ColumnWidths(format)|
    requires forall k :: 0 <= k < |values| ==> ColumnFits(format, values, k)
    ensures |Layout(format)| == |ColumnWidths(format)| && AllFit(Layout(format)[..|values|], values)
    ensures Columns(ColumnBase(format), ColumnWidths(format)[..|values|], values) == PrintFields(Layout(format)[..|values|], values)
  {
    var i, fields, widths := |values|, Layout(format), ColumnWidths(format);
    LayoutColumns(format, i);
    ColumnsFit(format, values);
    forall k | 0 <= k < i ensures fields[k] in {Number(ColumnBase(format), widths[k]), Unread(widths[k])} {
      LayoutColumns(format, k);
    }
    ColumnsAreFields(fields[..i], ColumnBase(format), widths[..i], values);
  }

  lemma {:induction false} StrangeNumberFails(format: Format, f: Fault, text: string)
    requires ValidFault(format, f) && f.StrangeNumber? && text == FaultText(format, f)
    ensures ReadHeader(text, format) == Err(BadNumber)
  {
    var i, m, size, fields := |f.values|, |Magic(format)|, HeaderSize(format), Layout(format);
    var columns := Columns(ColumnBase(format), ColumnWidths(format)[..i], f.values);
    ColumnsInFront(format, f.values);
    LayoutColumns(format, i);
    HeaderSizes(format);
    MagicIsPrinted(format);
    PrefixWidth(fields, i);
    StrangePieces(text, Magic(format), columns, f.bad, f.text, size);
    ReadFieldsFails(fields, f.values, f.bad, text[m + |columns| + |f.bad|..size], text[m..size]);
  }

  lemma {:induction false} ColumnsFit(format: Format, values: seq<nat>)
    requires !format.Binary? && |values| <= |ColumnWidths(format)|
    requires forall k :: 0 <= k < |values| ==> ColumnFits(format, values, k)
    ensures |values| <= |Layout(format)| && AllFit(Layout(format)[..|values|], values)
  {
    forall k | 0 <= k < |values| ensures Fits(Layout(format)[k], values[k]) {
      LayoutColumns(format, k);
      assert ColumnFits(format, values, k);
    }
  }

  lemma {:induction false} PrefixWidth(fields: seq<Field>, i: nat)
    requires i < |fields|
    ensures TotalWidth(fields[..i]) + Width(fields[i]) <= TotalWidth(fields)
  {
    WidthAppend(fields[..i], fields[i..]);
    assert fields == fields[..i] + fields[i..] && fields[i..][0] == fields[i];
  }

  // ----- faults stop the reader

  lemma {:induction false} HeaderFails(bytes: string, pos: nat, format: Format, problem: Problem)
    requires ReadHeader(At(bytes, pos), format) == Err(problem)
    ensures ReadRecord(bytes, pos, EncodingOf(format)) == Err(problem)
  {
  }

  lemma {:induction false} NameFails(bytes: string, pos: nat, format: Format, n: Numbers, rest: string, problem: Problem)
    requires NumbersFit(format, n) && Text.StandsAt(bytes, pos, PrintHeader(format, n) + rest)
    requires ReadName(rest, n.nameSize) == Err(problem)
    ensures ReadRecord(bytes, pos, EncodingOf(format)) == Err(problem)
  {
    HeaderReads(format, n, rest);
    Text.Past(bytes, pos, PrintHeader(format, n), rest);
    assert At(bytes, pos) == PrintHeader(format, n) + rest && At(bytes, pos + HeaderSize(format)) == rest;
  }

  lemma {:induction false} LinkFails(bytes: string, pos: nat, e: Encoding, d: Draft, text: string, index: nat)
    requires Readable(e, d) && d.name != TRAILER && KindOf(d.header.mode).SymlinkEntry? && |text| < d.header.size
    requires Text.StandsAt(bytes, pos, d.printed + PrintName(e, d, text))
    ensures ReadEntries(bytes, pos, e, index) == Err(Truncated)
  {
    HeaderPast(bytes, pos, e, d, PrintName(e, d, text));
    NameFollows(bytes, pos, e, d, text);
    PayloadFollows(bytes, pos, e, d, text);
    DraftFrom(bytes, pos, e, d);
    assert At(bytes, ExpectedRecord(e, d, pos).dataOffset) == text;
  }

  lemma {:induction false} TargetFails(bytes: string, pos: nat, format: Format, m: Member, text: string, index: nat)
    requires ValidMember(format, m) && m.sort.SymbolicLink? && |text| < |m.data|
    requires Text.StandsAt(bytes, pos, PrintHeader(format, NumbersOf(format, m)) + PrintName(EncodingOf(format), Drafted(format, m), text))
    ensures ReadEntries(bytes, pos, EncodingOf(format), index) == Err(Truncated)
  {
    DraftsAreReadable(format, m);
    KindOfMember(m);
    LinkFails(bytes, pos, EncodingOf(format), Drafted(format, m), text, index);
  }

  lemma {:induction false} FaultStops(bytes: string, pos: nat, format: Format, f: Fault, index: nat)
    requires ValidFault(format, f) && Text.StandsAt(bytes, pos, FaultText(format, f))
    ensures ReadEntries(bytes, pos, EncodingOf(format), index) == Err(ProblemOf(f))
  {
    assert At(bytes, pos) == FaultText(format, f);
    match f
    case ShortHeader(text) => HeaderFails(bytes, pos, format, Truncated);
    case OtherMagic(text) =>
      MagicIsPrinted(format);
      HeaderSizes(format);
      assert text[..|Magic(format)|] != Magic(format);
      HeaderFails(bytes, pos, format, BadMagic);
    case StrangeNumber(_, _, _) =>
      StrangeNumberFails(format, f, At(bytes, pos));
      HeaderFails(bytes, pos, format, BadNumber);
    case NameLength(n, text) => NameFails(bytes, pos, format, n, text, BadNameLength);
    case ShortName(n, text) => NameFails(bytes, pos, format, n, text, Truncated);
    case NoEnd(n, name, text) =>
      assert (name + text)[n.nameSize - 1] == name[n.nameSize - 1];
      NameFails(bytes, pos, format, n, name + text, NoTerminator);
    case ShortTarget(m, text) => TargetFails(bytes, pos, format, m, text, index);
  }

  // ----- behind good records

  lemma {:induction false} MemberPasses(bytes: string, pos: nat, e: Encoding, d: Draft, index: nat, rest: string)
    requires Readable(e, d) && d.name != TRAILER && Text.StandsAt(bytes, pos, PrintRecord(e, d, rest))
    ensures var next := NextPosition(ExpectedRecord(e, d, pos), e);
            && Text.StandsAt(bytes, next, rest)
            && (ReadEntries(bytes, next, e, index + 1).Err? ==>
                  ReadEntries(bytes, pos, e, index) == ReadEntries(bytes, next, e, index + 1))
  {
    var r := ExpectedRecord(e, d, pos);
    RecordReads(bytes, pos, e, d, rest);
    PayloadPast(bytes, r.dataOffset, e, d, rest);
    assert LinkTarget(bytes, r).Ok?;
  }

  lemma {:induction false} FaultBehind(bytes: string, pos: nat, format: Format, drafts: seq<Draft>, f: Fault, index: nat)
    requires AllReadable(EncodingOf(format), drafts) && ValidFault(format, f)
    requires Text.StandsAt(bytes, pos, PrintRecords(EncodingOf(format), drafts, FaultText(format, f)))
    ensures ReadEntries(bytes, pos, EncodingOf(format), index) == Err(ProblemOf(f))
    decreases |drafts|
  {
    var e := EncodingOf(format);
    if drafts == [] {
      FaultStops(bytes, pos, format, f, index);
    } else {
      MemberPasses(bytes, pos, e, drafts[0], index, PrintRecords(e, drafts[1..], FaultText(format, f)));
      assert AllReadable(e, drafts[1..]);
      FaultBehind(bytes, NextPosition(ExpectedRecord(e, drafts[0], pos), e), format, drafts[1..], f, index + 1);
    }
  }

  lemma {:induction false} MembersAreDetected(format: Format, members: seq<Member>, rest: string)
    requires members != []
    ensures Detect(PrintRecords(EncodingOf(format), Drafts(format, members), rest)) == Ok(format)
  {
    var e, drafts := EncodingOf(format), Drafts(format, members);
    RecordStartsWithMagic(format, members[0], PrintRecords(e, drafts[1..], rest));
    DetectsFormat(format, PrintRecords(e, drafts, rest));
  }

  /** Behind any good members, a faulty record fails the archive with its problem. */
  lemma {:induction false} FaultIsReported(format: Format, members: seq<Member>, f: Fault)
    requires members != [] && ValidMembers(format, members) && ValidFault(format, f)
    ensures Archive(PrintRecords(EncodingOf(format), Drafts(format, members), FaultText(format, f))) == Err(ProblemOf(f))
  {
    var bytes := PrintRecords(EncodingOf(format), Drafts(format, members), FaultText(format, f));
    MembersAreDetected(format, members, FaultText(format, f));
    AllDraftsAreReadable(format, members);
    assert Text.StandsAt(bytes, 0, bytes);
    FaultBehind(bytes, 0, format, Drafts(format, members), f, 0);
  }
}
