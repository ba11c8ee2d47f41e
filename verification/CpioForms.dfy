/** Printed CPIO archives, and what the reader makes of them and of any archive. */
module CpioForms {

  import opened Wrappers
  import Text
  import opened Cpio

  // ----- hard links

  /** The search finds the first target, if there is one. */
  lemma {:induction false} FindTargetIsFirst(entries: seq<Entry>, inode: nat, device: (nat, nat))
    ensures FindTarget(entries, inode, device).None? ==>
              forall t :: 0 <= t < |entries| ==> !IsTarget(entries[t], inode, device)
    ensures FindTarget(entries, inode, device).Some? ==>
              var e := FindTarget(entries, inode, device).value;
              exists t :: 0 <= t < |entries| && entries[t] == e && IsTarget(e, inode, device)
                          && forall u :: 0 <= u < t ==> !IsTarget(entries[u], inode, device)
    decreases |entries|
  {
    if entries != [] && !IsTarget(entries[0], inode, device) {
      var rest := entries[1..];
      FindTargetIsFirst(rest, inode, device);
      var found := FindTarget(rest, inode, device);
      if found.Some? {
        var t :| 0 <= t < |rest| && rest[t] == found.value && forall u :: 0 <= u < t ==> !IsTarget(rest[u], inode, device);
        assert entries[t + 1] == found.value;
        forall u | 0 <= u < t + 1 ensures !IsTarget(entries[u], inode, device) {
          assert u > 0 ==> entries[u] == rest[u - 1];
        }
      } else {
        forall t | 0 <= t < |entries| ensures !IsTarget(entries[t], inode, device) {
          assert t > 0 ==> entries[t] == rest[t - 1];
        }
      }
    }
  }

  /** The entry at `t` is the first non-empty file with the key of entry `i`. */
  ghost predicate FirstTarget(entries: seq<Entry>, i: nat, t: nat)
    requires i < |entries| && t < |entries|
  {
    && IsTarget(entries[t], entries[i].inode, entries[i].device)
    && forall u :: 0 <= u < t ==> !IsTarget(entries[u], entries[i].inode, entries[i].device)
  }

  /** An entry becomes a hard link exactly when it is an empty file with several
      links and some non-empty file has its key; it then names the first such
      file, which stays a file itself.  Everything else is unchanged. */
  lemma {:induction false} LinksAreDirect(entries: seq<Entry>, i: nat)
    requires i < |entries| && !entries[i].kind.HardlinkEntry?
    ensures var after := AllLinked(entries);
            && after[i].index == entries[i].index && after[i].path == entries[i].path && after[i].size == entries[i].size
            && (after[i].kind.HardlinkEntry? <==>
                IsCandidate(entries[i]) && entries[i].size == 0
                && exists t :: 0 <= t < |entries| && IsTarget(entries[t], entries[i].inode, entries[i].device))
            && (!after[i].kind.HardlinkEntry? ==> after[i] == entries[i])
            && (after[i].kind.HardlinkEntry? ==>
                  exists t :: 0 <= t < |entries| && FirstTarget(entries, i, t)
                              && after[i].linkTarget == Some(entries[t].path) && after[t] == entries[t])
  {
    FindTargetIsFirst(entries, entries[i].inode, entries[i].device);
  }

  // ----- alignment

  /** Entries are numbered in order, and each payload starts where the padded
      header and name behind the previous payload end. */
  ghost predicate Chained(entries: seq<Entry>, e: Encoding, pos: nat, index: nat) {
    entries != [] ==>
      && entries[0].index == index && entries[0].dataOffset == pos + FrontSize(e, |entries[0].path| + 1)
      && Chained(entries[1..], e, entries[0].dataOffset + PayloadSize(e, entries[0].size), index + 1)
  }

  lemma {:induction false} FirstEntry(bytes: string, pos: nat, e: Encoding, index: nat, r: Record)
    requires ReadEntries(bytes, pos, e, index).Ok? && ReadRecord(bytes, pos, e) == Ok(r) && r.name != TRAILER
    ensures ReadEntries(bytes, NextPosition(r, e), e, index + 1).Ok?
    ensures var entries := ReadEntries(bytes, pos, e, index).value;
            && entries != [] && entries[0].index == index && entries[0].dataOffset == r.dataOffset
            && entries[0].size == r.header.size && entries[0].path == r.name
            && entries[1..] == ReadEntries(bytes, NextPosition(r, e), e, index + 1).value
  {
  }

  lemma {:induction false} EntriesAreChained(bytes: string, pos: nat, e: Encoding, index: nat)
    requires ReadEntries(bytes, pos, e, index).Ok?
    ensures Chained(ReadEntries(bytes, pos, e, index).value, e, pos, index)
    decreases |bytes| - pos
  {
    var r := FirstRecord(bytes, pos, e, index);
    if r.name != TRAILER {
      FirstEntry(bytes, pos, e, index, r);
      EntriesAreChained(bytes, NextPosition(r, e), e, index + 1);
      ChainedFirst(ReadEntries(bytes, pos, e, index).value, e, pos, index, r);
    }
  }

  lemma {:induction false} FirstRecord(bytes: string, pos: nat, e: Encoding, index: nat) returns (r: Record)
    requires ReadEntries(bytes, pos, e, index).Ok?
    ensures ReadRecord(bytes, pos, e) == Ok(r) && pos < |bytes|
    ensures r.dataOffset == pos + FrontSize(e, |r.name| + 1) && pos < NextPosition(r, e)
    ensures r.name == TRAILER ==> ReadEntries(bytes, pos, e, index).value == []
  {
    r := ReadRecord(bytes, pos, e).value;
    assert r.header.nameSize == |r.name| + 1;
  }

  lemma {:induction false} ChainedFirst(entries: seq<Entry>, e: Encoding, pos: nat, index: nat, r: Record)
    requires entries != [] && entries[0].index == index && entries[0].dataOffset == r.dataOffset
    requires entries[0].size == r.header.size && entries[0].path == r.name
    requires r.dataOffset == pos + FrontSize(e, |r.name| + 1)
    requires Chained(entries[1..], e, NextPosition(r, e), index + 1)
    ensures Chained(entries, e, pos, index)
  {
  }

  lemma {:induction false} PaddedSums(format: Format, pos: nat, nameSize: nat, size: nat)
    requires IsAligned(pos, format)
    ensures var e := EncodingOf(format);
            && IsAligned(pos + FrontSize(e, nameSize), format)
            && IsAligned(pos + FrontSize(e, nameSize) + PayloadSize(e, size), format)
  {
    match format
    case Newc => FourAlign(pos, HeaderSize(format) + nameSize, size);
    case Crc => FourAlign(pos, HeaderSize(format) + nameSize, size);
    case Odc =>
    case Binary(_) => TwoAlign(pos, HeaderSize(format) + nameSize, size);
  }

  lemma {:induction false} FourAlign(pos: nat, a: nat, b: nat)
    requires pos % 4 == 0
    ensures (pos + (a + (4 - a % 4) % 4)) % 4 == 0
    ensures (pos + (a + (4 - a % 4) % 4) + (b + (4 - b % 4) % 4)) % 4 == 0
  {
    PadFour(a);
    PadFour(b);
    SumFour(pos, a + (4 - a % 4) % 4);
    SumFour(pos + (a + (4 - a % 4) % 4), b + (4 - b % 4) % 4);
  }

  lemma {:induction false} PadFour(a: nat)
    ensures (a + (4 - a % 4) % 4) % 4 == 0
  {
  }

  lemma {:induction false} SumFour(a: nat, b: nat)
    requires a % 4 == 0 && b % 4 == 0
    ensures (a + b) % 4 == 0
  {
  }

  lemma {:induction false} TwoAlign(pos: nat, a: nat, b: nat)
    requires pos % 2 == 0
    ensures (pos + (a + (2 - a % 2) % 2)) % 2 == 0
    ensures (pos + (a + (2 - a % 2) % 2) + (b + (2 - b % 2) % 2)) % 2 == 0
  {
  }

  lemma {:induction false} ChainedIsAligned(entries: seq<Entry>, format: Format, pos: nat, index: nat, i: nat)
    requires Chained(entries, EncodingOf(format), pos, index) && IsAligned(pos, format) && i < |entries|
    ensures IsAligned(entries[i].dataOffset, format) && entries[i].index == index + i
    ensures i == 0 || entries[i - 1].dataOffset + entries[i - 1].size <= entries[i].dataOffset
    decreases |entries|
  {
    PaddedSums(format, pos, |entries[0].path| + 1, entries[0].size);
    var next := entries[0].dataOffset + PayloadSize(EncodingOf(format), entries[0].size);
    if i > 0 {
      assert Chained(entries[1..], EncodingOf(format), next, index + 1);
      ChainedIsAligned(entries[1..], format, next, index + 1, i - 1);
    }
  }

  /** In every archive that reads, payloads start at multiples of the alignment
      of the encoding, none starts before the one in front of it has ended, and
      entries are numbered in order. */
  lemma {:induction false} PayloadsAreAligned(bytes: string, i: nat)
    requires Archive(bytes).Ok? && i < |Archive(bytes).value|
    ensures var entries := Archive(bytes).value;
            && IsAligned(entries[i].dataOffset, Detect(bytes).value) && entries[i].index == i
            && (i == 0 || entries[i - 1].dataOffset + entries[i - 1].size <= entries[i].dataOffset)
  {
    var format := Detect(bytes).value;
    var entries := ReadEntries(bytes, 0, EncodingOf(format), 0).value;
    EntriesAreChained(bytes, 0, EncodingOf(format), 0);
    ChainedIsAligned(entries, format, 0, 0, i);
    LinkedPlaces(entries, i);
    if i > 0 {
      LinkedPlaces(entries, i - 1);
    }
  }

  lemma {:induction false} LinkedPlaces(entries: seq<Entry>, i: nat)
    requires i < |entries|
    ensures var e := AllLinked(entries)[i];
            e.dataOffset == entries[i].dataOffset && e.size == entries[i].size && e.index == entries[i].index
  {
    assert AllLinked(entries)[i] == Linked(entries, entries[i]);
  }

  // ----- printing numbers

  function DigitChar(d: nat): char
    requires d < 16
  {
    if d < 10 then '0' + d as char else 'a' + (d - 10) as char
  }

  function Digits(base: Base, value: nat, width: nat): (s: string)
    ensures |s| == width
  {
    if width == 0 then "" else Digits(base, WithoutDigit(base, value), width - 1) + [DigitChar(DigitOf(base, value))]
  }

  /** One more than the largest number that fits. */
  function Limit(base: Base, width: nat): nat {
    if width == 0 then 1 else Scale(base, Limit(base, width - 1))
  }

  lemma {:induction false} DigitsRead(base: Base, value: nat, width: nat)
    requires value < Limit(base, width)
    ensures Value(base, Digits(base, value, width)) == value
    ensures forall i :: 0 <= i < width ==> IsDigit(base, Digits(base, value, width)[i])
  {
    if width > 0 {
      var s := Digits(base, value, width);
      DigitsRead(base, WithoutDigit(base, value), width - 1);
      assert s[..|s| - 1] == Digits(base, WithoutDigit(base, value), width - 1);
    }
  }

  lemma {:induction false} FieldReads(base: Base, value: nat, width: nat)
    requires width > 0 && value < Limit(base, width)
    ensures ParseField(base, Digits(base, value, width)) == Ok(value)
  {
    var s := Digits(base, value, width);
    DigitsRead(base, value, width);
    assert IsDigit(base, s[0]) && IsDigit(base, s[|s| - 1]);
    assert s[0] != '+' && Text.IsTidy(s);
    Text.TrimTidy(s);
  }

  function PrintField(f: Field, v: nat): (s: string)
    ensures |s| == Width(f)
  {
    match f
    case Number(base, w) => Digits(base, v, w)
    case Unread(w) => Digits(Octal, v, w)
    case Word(little) => PrintWord(little, v)
  }

  /** Two bytes in either order. */
  function PrintWord(little: bool, v: nat): (s: string)
    ensures |s| == 2
  {
    var lo, hi := (v % 256) as char, (v / 256 % 256) as char;
    if little then [lo, hi] else [hi, lo]
  }

  predicate Fits(f: Field, v: nat) {
    match f
    case Number(base, w) => w > 0 && v < Limit(base, w)
    case Unread(w) => v < Limit(Octal, w)
    case Word(_) => v < 65536
  }

  /** What the reader makes of a field: some it does not look at. */
  function Seen(f: Field, v: nat): nat {
    if f.Unread? then 0 else v
  }

  lemma {:induction false} PrintedFieldReads(f: Field, v: nat)
    requires Fits(f, v)
    ensures ReadField(f, PrintField(f, v)) == Ok(Seen(f, v))
  {
    if f.Number? {
      FieldReads(f.base, v, f.digits);
    }
  }

  predicate AllFit(fields: seq<Field>, values: seq<nat>) {
    |fields| == |values| && forall i :: 0 <= i < |fields| ==> Fits(fields[i], values[i])
  }

  function PrintFields(fields: seq<Field>, values: seq<nat>): (s: string)
    requires |fields| == |values|
    ensures |s| == TotalWidth(fields)
  {
    if fields == [] then "" else PrintField(fields[0], values[0]) + PrintFields(fields[1..], values[1..])
  }

  function AllSeen(fields: seq<Field>, values: seq<nat>): (seen: seq<nat>)
    requires |fields| == |values|
    ensures |seen| == |values| && forall i :: 0 <= i < |seen| ==> seen[i] == Seen(fields[i], values[i])
  {
    seq(|values|, i requires 0 <= i < |values| => Seen(fields[i], values[i]))
  }

  lemma {:induction false} PrintedFieldsRead(fields: seq<Field>, values: seq<nat>)
    requires AllFit(fields, values)
    ensures ReadFields(fields, PrintFields(fields, values)) == Ok(AllSeen(fields, values))
    decreases |fields|
  {
    if fields != [] {
      var s := PrintFields(fields, values);
      PrintedFieldReads(fields[0], values[0]);
      PrintedFieldsRead(fields[1..], values[1..]);
      assert s[..Width(fields[0])] == PrintField(fields[0], values[0]);
      assert s[Width(fields[0])..] == PrintFields(fields[1..], values[1..]);
      assert AllSeen(fields, values) == [Seen(fields[0], values[0])] + AllSeen(fields[1..], values[1..]);
    }
  }

  // ----- numbers as writers may put them

  /** The same digits in capitals. */
  function Capitals(s: string): (c: string)
    ensures |c| == |s|
  {
    seq(|s|, i requires 0 <= i < |s| => Capital(s[i]))
  }

  function Capital(c: char): char {
    match c
    case 'a' => 'A'
    case 'b' => 'B'
    case 'c' => 'C'
    case 'd' => 'D'
    case 'e' => 'E'
    case 'f' => 'F'
    case _ => c
  }

  lemma {:induction false} CapitalsRead(base: Base, s: string)
    ensures Value(base, Capitals(s)) == Value(base, s)
    ensures AreDigits(base, Capitals(s)) <==> AreDigits(base, s)
    decreases |s|
  {
    forall i | 0 <= i < |s| ensures DigitValue(Capitals(s)[i]) == DigitValue(s[i]) {
      assert Capitals(s)[i] == Capital(s[i]);
    }
    if s != "" {
      var n := |s| - 1;
      assert Capitals(s)[..n] == Capitals(s[..n]);
      CapitalsRead(base, s[..n]);
    }
  }

  /** Hexadecimal fields read in either case; octal fields also with spaces around
      them, and blank octal fields as zero. */
  lemma {:induction false} NumbersRead(value: nat, width: nat, before: string, after: string)
    requires width > 0 && IsSpaceText(before) && IsSpaceText(after)
    ensures value < Limit(Hex, width) ==> ParseField(Hex, Capitals(Digits(Hex, value, width))) == Ok(value)
    ensures value < Limit(Octal, width) ==> ParseField(Octal, before + Digits(Octal, value, width) + after) == Ok(value)
    ensures ParseField(Octal, before + after) == Ok(0)
  {
    if value < Limit(Hex, width) {
      DigitsRead(Hex, value, width);
      CapitalsRead(Hex, Digits(Hex, value, width));
      FirstCapital(value, width);
    }
    if value < Limit(Octal, width) {
      var s := Digits(Octal, value, width);
      DigitsRead(Octal, value, width);
      assert IsDigit(Octal, s[0]) && IsDigit(Octal, s[|s| - 1]);
      Text.TrimPadded(before, s, after);
    }
    assert before + "" + after == before + after;
    Text.TrimPadded(before, "", after);
    assert AreDigits(Octal, "0") && "0"[..0] == "";
  }

  predicate IsSpaceText(s: string) {
    Text.IsSpace(s)
  }

  lemma {:induction false} FirstCapital(value: nat, width: nat)
    requires width > 0 && value < Limit(Hex, width)
    ensures Capitals(Digits(Hex, value, width))[0] != '+'
  {
    var s := Digits(Hex, value, width);
    DigitsRead(Hex, value, width);
    assert IsDigit(Hex, s[0]) && Capitals(s)[0] == Capital(s[0]);
  }

  /** A plus sign may precede the digits, but not stand for them. */
  lemma {:induction false} PlusReads(base: Base, value: nat, width: nat)
    requires width > 0 && value < Limit(base, width)
    ensures ParseField(base, "+" + Digits(base, value, width)) == Ok(value)
    ensures ParseField(base, "+") == Err(BadNumber)
  {
    var s := "+" + Digits(base, value, width);
    DigitsRead(base, value, width);
    assert IsDigit(base, s[|s| - 1]) && s[1..] == Digits(base, value, width);
    Text.TrimTidy(s);
    Text.TrimTidy("+");
    assert "+"[1..] == "";
  }

  const OCTAL_DIGITS: set<char> := {'0', '1', '2', '3', '4', '5', '6', '7'}
  const HEX_DIGITS: set<char> :=
    OCTAL_DIGITS + {'8', '9', 'a', 'b', 'c', 'd', 'e', 'f', 'A', 'B', 'C', 'D', 'E', 'F'}

  function DigitsOf(base: Base): set<char> {
    if base.Octal? then OCTAL_DIGITS else HEX_DIGITS
  }

  lemma {:induction false} DigitIff(base: Base, c: char)
    ensures IsDigit(base, c) <==> c in DigitsOf(base)
  {
  }

  /** A field with anything else in it, spaces around an octal one aside, is not a
      number. */
  lemma {:induction false} StrangeField(base: Base, s: string, i: nat)
    requires Text.IsTidy(s) && 0 < i < |s| && s[i] !in DigitsOf(base)
    ensures ParseField(base, s) == Err(BadNumber)
  {
    Text.TrimTidy(s);
    DigitIff(base, s[i]);
    var digits := if s[0] == '+' then s[1..] else s;
    assert s[0] == '+' ==> digits[i - 1] == s[i];
  }

  // ----- printing headers

  /** The numbers a header holds.  The reader takes the owner for the device where
      there are fields for both. */
  datatype Numbers = Numbers(
    inode: nat, mode: nat, owner: (nat, nat), nlink: nat, mtime: nat, size: nat,
    device: (nat, nat), special: (nat, nat), nameSize: nat, check: nat)

  function Values(format: Format, n: Numbers): (v: seq<nat>)
    ensures |v| == |Layout(format)|
  {
    match format
    case Newc => NewValues(n)
    case Crc => NewValues(n)
    case Odc =>
      [n.device.0, n.inode, n.mode, n.owner.0, n.owner.1, n.nlink, n.special.0, n.mtime, n.nameSize, n.size]
    case Binary(_) =>
      [n.device.0, n.inode, n.mode, n.owner.0, n.owner.1, n.nlink, n.special.0,
       n.mtime / 65536, n.mtime % 65536, n.nameSize, n.size / 65536, n.size % 65536]
  }

  function NewValues(n: Numbers): (v: seq<nat>)
    ensures |v| == 13
  {
    [n.inode, n.mode, n.owner.0, n.owner.1, n.nlink, n.mtime, n.size, n.device.0, n.device.1, n.special.0, n.special.1,
     n.nameSize, n.check]
  }

  /** Numbers side by side in columns of given widths. */
  function Columns(base: Base, widths: seq<nat>, values: seq<nat>): string
    requires |widths| == |values|
  {
    if widths == [] then "" else Digits(base, values[0], widths[0]) + Columns(base, widths[1..], values[1..])
  }

  function PrintWords(little: bool, values: seq<nat>): string {
    if values == [] then "" else PrintWord(little, values[0]) + PrintWords(little, values[1..])
  }

  const EIGHTS: seq<nat> := [8, 8, 8, 8, 8, 8, 8, 8, 8, 8, 8, 8, 8]
  const ODC_WIDTHS: seq<nat> := [6, 6, 6, 6, 6, 6, 6, 11, 6, 11]

  function PrintMagic(format: Format): string {
    match format
    case Newc => "070701"
    case Crc => "070702"
    case Odc => "070707"
    case Binary(little) => PrintWord(little, 0x71c7)
  }

  function PrintNumbers(format: Format, n: Numbers): string {
    match format
    case Newc => Columns(Hex, EIGHTS, Values(format, n))
    case Crc => Columns(Hex, EIGHTS, Values(format, n))
    case Odc => Columns(Octal, ODC_WIDTHS, Values(format, n))
    case Binary(little) => PrintWords(little, Values(format, n))
  }

  lemma {:induction false} ColumnsAreFields(fields: seq<Field>, base: Base, widths: seq<nat>, values: seq<nat>)
    requires |fields| == |widths| == |values|
    requires forall i :: 0 <= i < |fields| ==>
               fields[i] == Number(base, widths[i]) || (base.Octal? && fields[i] == Unread(widths[i]))
    ensures PrintFields(fields, values) == Columns(base, widths, values)
    decreases |fields|
  {
    if fields != [] {
      ColumnsAreFields(fields[1..], base, widths[1..], values[1..]);
    }
  }

  lemma {:induction false} WordsAreFields(fields: seq<Field>, little: bool, values: seq<nat>)
    requires |fields| == |values| && forall i :: 0 <= i < |fields| ==> fields[i] == Word(little)
    ensures PrintFields(fields, values) == PrintWords(little, values)
    decreases |fields|
  {
    if fields != [] {
      WordsAreFields(fields[1..], little, values[1..]);
    }
  }

  /** The reader's layout is that of the printed form. */
  lemma {:induction false} LayoutIsPrinted(format: Format, n: Numbers)
    ensures PrintMagic(format) == Magic(format)
    ensures PrintNumbers(format, n) == PrintFields(Layout(format), Values(format, n))
  {
    match format
    case Newc => ColumnsAreFields(Layout(format), Hex, EIGHTS, Values(format, n));
    case Crc => ColumnsAreFields(Layout(format), Hex, EIGHTS, Values(format, n));
    case Odc => ColumnsAreFields(Layout(format), Octal, ODC_WIDTHS, Values(format, n));
    case Binary(little) => WordsAreFields(Layout(format), little, Values(format, n));
  }

  function PrintHeader(format: Format, n: Numbers): (s: string)
    ensures |s| == HeaderSize(format)
  {
    HeaderSizes(format);
    LayoutIsPrinted(format, n);
    PrintMagic(format) + PrintNumbers(format, n)
  }

  predicate NumbersFit(format: Format, n: Numbers) {
    AllFit(Layout(format), Values(format, n))
  }

  function ExpectedHeader(format: Format, n: Numbers): Header {
    var isNew := format.Newc? || format.Crc?;
    Header(n.mode, n.mtime, n.size, n.nameSize, if format.Crc? then Some(n.check) else None,
           n.inode, if isNew then n.owner else (n.device.0, 0), n.nlink)
  }

  lemma {:induction false} HeaderReads(format: Format, n: Numbers, rest: string)
    requires NumbersFit(format, n)
    ensures ReadHeader(PrintHeader(format, n) + rest, format) == Ok(ExpectedHeader(format, n))
  {
    var magic, fields := Magic(format), PrintFields(Layout(format), Values(format, n));
    PrintedFieldsRead(Layout(format), Values(format, n));
    HeaderSizes(format);
    LayoutIsPrinted(format, n);
    HeaderPieces(PrintHeader(format, n) + rest, magic, fields, rest);
    ValuesRead(format, n);
  }

  lemma {:induction false} HeaderPieces(text: string, magic: string, fields: string, rest: string)
    requires text == magic + fields + rest
    ensures text[..|magic|] == magic && text[|magic|..|magic| + |fields|] == fields
  {
  }

  lemma {:induction false} ValuesRead(format: Format, n: Numbers)
    ensures HeaderOf(format, AllSeen(Layout(format), Values(format, n))) == ExpectedHeader(format, n)
  {
    var fields, values := Layout(format), Values(format, n);
    assert format.Odc? ==> fields[0] == Number(Octal, 6) && fields[1] == Number(Octal, 6) && fields[2] == Number(Octal, 6);
  }

  // ----- members

  datatype Sort = Regular | Folder | SymbolicLink | Other(bits: nat)

  /** A member; `high` is what its mode holds above the file type. */
  datatype Member = Member(
    name: string, sort: Sort, permissions: nat, high: nat, mtime: nat, inode: nat,
    owner: (nat, nat), device: (nat, nat), special: (nat, nat), nlink: nat, data: string)

  /** The file type of a mode: 0o100000, 0o040000, 0o120000, or another. */
  function TypeBits(sort: Sort): nat {
    match sort
    case Regular => 0x8000
    case Folder => 0x4000
    case SymbolicLink => 0xa000
    case Other(bits) => 0x1000 * bits
  }

  function ModeOf(m: Member): nat {
    0x1_0000 * m.high + TypeBits(m.sort) + m.permissions
  }

  /** The checksum field holds the byte sum in 32 bits. */
  function StoredSum(data: string): nat {
    ByteSum(data) % 0x1_0000_0000
  }

  function NumbersOf(format: Format, m: Member): Numbers {
    Numbers(m.inode, ModeOf(m), m.owner, m.nlink, m.mtime, |m.data|, m.device, m.special, |m.name| + 1,
            if format.Crc? then StoredSum(m.data) else 0)
  }

  predicate ValidSort(m: Member) {
    m.permissions < 0x1000 && (m.sort.Other? ==> m.sort.bits < 16 && m.sort.bits !in {4, 8, 10})
  }

  /** Every number fits its field. */
  predicate Printable(format: Format, m: Member) {
    ValidSort(m) && NumbersFit(format, NumbersOf(format, m)) && |m.name| < 0x100_0000
  }

  predicate ValidMember(format: Format, m: Member) {
    Printable(format, m) && m.name != TRAILER
  }

  function ShownKind(sort: Sort): Kind {
    match sort
    case Regular => FileEntry
    case Folder => DirectoryEntry
    case SymbolicLink => SymlinkEntry
    case Other(_) => SpecialEntry
  }

  lemma {:induction false} ModeBits(high: nat, bits: nat, permissions: nat)
    requires bits < 16 && permissions < 0x1000
    ensures (0x1_0000 * high + 0x1000 * bits + permissions) / 0x1000 % 16 == bits
  {
    assert (0x1_0000 * high + 0x1000 * bits + permissions) / 0x1000 == 16 * high + bits;
  }

  lemma {:induction false} KindOfMember(m: Member)
    requires ValidSort(m)
    ensures KindOf(ModeOf(m)) == ShownKind(m.sort)
  {
    var bits := match m.sort case Regular => 8 case Folder => 4 case SymbolicLink => 10 case Other(b) => b;
    assert TypeBits(m.sort) == 0x1000 * bits;
    ModeBits(m.high, bits, m.permissions);
  }

  function Zeros(n: nat): (s: string)
    ensures |s| == n
  {
    seq(n, _ => '\0')
  }

  // ----- records of any encoding

  /** A record with its header in print, and what that header says. */
  datatype Draft = Draft(printed: string, header: Header, name: string, data: string)

  /** The printed header reads back in front of anything. */
  ghost predicate Readable(e: Encoding, d: Draft) {
    && |d.printed| == e.headerSize && d.header.nameSize == |d.name| + 1 <= MAX_NAME_BYTES && d.header.size == |d.data|
    && forall rest :: e.readHeader(d.printed + rest) == Ok(d.header)
  }

  /** A payload, its padding, and what follows. */
  function PrintPayload(e: Encoding, d: Draft, rest: string): string {
    d.data + (Zeros(e.padding(|d.data|)) + rest)
  }

  /** A name, its terminator and padding, and what follows. */
  function PrintName(e: Encoding, d: Draft, rest: string): string {
    d.name + ("\0" + (Zeros(e.padding(e.headerSize + (|d.name| + 1))) + rest))
  }

  /** A record in front of the rest of the archive. */
  function PrintRecord(e: Encoding, d: Draft, rest: string): string {
    d.printed + PrintName(e, d, PrintPayload(e, d, rest))
  }

  lemma {:induction false} HeaderAt(bytes: string, pos: nat, e: Encoding, d: Draft, rest: string)
    requires Readable(e, d) && Text.StandsAt(bytes, pos, d.printed + rest)
    ensures e.readHeader(At(bytes, pos)) == Ok(d.header)
  {
  }

  lemma {:induction false} NameAt(bytes: string, pos: nat, name: string, rest: string)
    requires |name| < MAX_NAME_BYTES && Text.StandsAt(bytes, pos, name + ("\0" + rest))
    ensures ReadName(At(bytes, pos), |name| + 1) == Ok(name)
  {
    var text := name + ("\0" + rest);
    assert text[|name|] == '\0' && text[..|name|] == name;
  }

  lemma {:induction false} RecordFrom(bytes: string, pos: nat, e: Encoding, h: Header, name: string)
    requires e.readHeader(At(bytes, pos)) == Ok(h) && ReadName(At(bytes, pos + e.headerSize), h.nameSize) == Ok(name)
    ensures ReadRecord(bytes, pos, e) == Ok(Record(name, h, pos + FrontSize(e, h.nameSize)))
  {
  }

  lemma {:induction false} NamePast(bytes: string, pos: nat, e: Encoding, d: Draft, rest: string)
    requires Text.StandsAt(bytes, pos, PrintName(e, d, rest))
    ensures Text.StandsAt(bytes, pos + (|d.name| + 1) + e.padding(e.headerSize + (|d.name| + 1)), rest)
  {
    var pad := Zeros(e.padding(e.headerSize + (|d.name| + 1)));
    Text.Past(bytes, pos, d.name, "\0" + (pad + rest));
    Text.Past(bytes, pos + |d.name|, "\0", pad + rest);
    Text.Past(bytes, pos + |d.name| + 1, pad, rest);
  }

  lemma {:induction false} PayloadPast(bytes: string, pos: nat, e: Encoding, d: Draft, rest: string)
    requires Text.StandsAt(bytes, pos, PrintPayload(e, d, rest))
    ensures Text.StandsAt(bytes, pos + PayloadSize(e, |d.data|), rest)
    ensures |d.data| <= |At(bytes, pos)| && At(bytes, pos)[..|d.data|] == d.data
  {
    var pad := Zeros(e.padding(|d.data|));
    Text.Past(bytes, pos, d.data, pad + rest);
    Text.Past(bytes, pos + |d.data|, pad, rest);
    assert bytes[pos..][..|d.data|] == d.data;
  }

  function ExpectedRecord(e: Encoding, d: Draft, pos: nat): Record {
    Record(d.name, d.header, pos + FrontSize(e, |d.name| + 1))
  }

  lemma {:induction false} HeaderPast(bytes: string, pos: nat, e: Encoding, d: Draft, afterHeader: string)
    requires Readable(e, d) && Text.StandsAt(bytes, pos, d.printed + afterHeader)
    ensures e.readHeader(At(bytes, pos)) == Ok(d.header) && Text.StandsAt(bytes, pos + e.headerSize, afterHeader)
  {
    HeaderAt(bytes, pos, e, d, afterHeader);
    Text.Past(bytes, pos, d.printed, afterHeader);
  }

  lemma {:induction false} NameFollows(bytes: string, pos: nat, e: Encoding, d: Draft, payload: string)
    requires |d.name| < MAX_NAME_BYTES && Text.StandsAt(bytes, pos + e.headerSize, PrintName(e, d, payload))
    ensures ReadName(At(bytes, pos + e.headerSize), |d.name| + 1) == Ok(d.name)
  {
    NameAt(bytes, pos + e.headerSize, d.name, Zeros(e.padding(e.headerSize + (|d.name| + 1))) + payload);
  }

  lemma {:induction false} PayloadFollows(bytes: string, pos: nat, e: Encoding, d: Draft, payload: string)
    requires Text.StandsAt(bytes, pos + e.headerSize, PrintName(e, d, payload))
    ensures Text.StandsAt(bytes, pos + FrontSize(e, |d.name| + 1), payload)
  {
    NamePast(bytes, pos + e.headerSize, e, d, payload);
  }

  lemma {:induction false} DraftFrom(bytes: string, pos: nat, e: Encoding, d: Draft)
    requires e.readHeader(At(bytes, pos)) == Ok(d.header) && d.header.nameSize == |d.name| + 1
    requires ReadName(At(bytes, pos + e.headerSize), |d.name| + 1) == Ok(d.name)
    ensures ReadRecord(bytes, pos, e) == Ok(ExpectedRecord(e, d, pos))
  {
    RecordFrom(bytes, pos, e, d.header, d.name);
  }

  /** A printed record reads back, its payload lies where the reader looks. */
  lemma {:induction false} RecordReads(bytes: string, pos: nat, e: Encoding, d: Draft, rest: string)
    requires Readable(e, d) && Text.StandsAt(bytes, pos, PrintRecord(e, d, rest))
    ensures ReadRecord(bytes, pos, e) == Ok(ExpectedRecord(e, d, pos))
    ensures Text.StandsAt(bytes, ExpectedRecord(e, d, pos).dataOffset, PrintPayload(e, d, rest))
  {
    var payload := PrintPayload(e, d, rest);
    HeaderPast(bytes, pos, e, d, PrintName(e, d, payload));
    NameFollows(bytes, pos, e, d, payload);
    PayloadFollows(bytes, pos, e, d, payload);
    DraftFrom(bytes, pos, e, d);
  }

  function PrintRecords(e: Encoding, drafts: seq<Draft>, rest: string): string {
    if drafts == [] then rest else PrintRecord(e, drafts[0], PrintRecords(e, drafts[1..], rest))
  }

  function ExpectedEntry(e: Encoding, d: Draft, index: nat, pos: nat): Entry {
    EntryOf(ExpectedRecord(e, d, pos), index, if KindOf(d.header.mode).SymlinkEntry? then Some(d.data) else None)
  }

  /** The entries of printed records before hard links are resolved. */
  function ExpectedEntries(e: Encoding, drafts: seq<Draft>, index: nat, pos: nat): (entries: seq<Entry>)
    ensures |entries| == |drafts|
    decreases |drafts|
  {
    if drafts == [] then []
    else
      [ExpectedEntry(e, drafts[0], index, pos)]
      + ExpectedEntries(e, drafts[1..], index + 1, NextPosition(ExpectedRecord(e, drafts[0], pos), e))
  }

  ghost predicate AllReadable(e: Encoding, drafts: seq<Draft>) {
    forall i :: 0 <= i < |drafts| ==> Readable(e, drafts[i]) && drafts[i].name != TRAILER
  }

  /** One printed member: its entry, and the position after it. */
  lemma {:induction false} MemberReads(bytes: string, pos: nat, e: Encoding, d: Draft, index: nat, rest: string)
    requires Readable(e, d) && d.name != TRAILER && Text.StandsAt(bytes, pos, PrintRecord(e, d, rest))
    ensures var next := NextPosition(ExpectedRecord(e, d, pos), e);
            && Text.StandsAt(bytes, next, rest)
            && (ReadEntries(bytes, next, e, index + 1).Ok? ==>
                  ReadEntries(bytes, pos, e, index) ==
                  Ok([ExpectedEntry(e, d, index, pos)] + ReadEntries(bytes, next, e, index + 1).value))
  {
    var r := ExpectedRecord(e, d, pos);
    RecordReads(bytes, pos, e, d, rest);
    PayloadPast(bytes, r.dataOffset, e, d, rest);
    assert LinkTarget(bytes, r) == Ok(if KindOf(d.header.mode).SymlinkEntry? then Some(d.data) else None);
  }

  lemma {:induction false} EntriesRead(
    bytes: string, pos: nat, e: Encoding, drafts: seq<Draft>, trailer: Draft, index: nat, rest: string)
    requires AllReadable(e, drafts) && Readable(e, trailer) && trailer.name == TRAILER
    requires Text.StandsAt(bytes, pos, PrintRecords(e, drafts, PrintRecord(e, trailer, rest)))
    ensures ReadEntries(bytes, pos, e, index) == Ok(ExpectedEntries(e, drafts, index, pos))
    decreases |drafts|
  {
    if drafts == [] {
      RecordReads(bytes, pos, e, trailer, rest);
    } else {
      MemberReads(bytes, pos, e, drafts[0], index, PrintRecords(e, drafts[1..], PrintRecord(e, trailer, rest)));
      EntriesRead(bytes, NextPosition(ExpectedRecord(e, drafts[0], pos), e), e, drafts[1..], trailer, index + 1, rest);
    }
  }

  /** The entry describes the record, and the payload lies at its offset. */
  ghost predicate Holds(bytes: string, entry: Entry, index: nat, name: string, data: string) {
    && entry.index == index && entry.path == name && entry.size == |data|
    && |data| <= |At(bytes, entry.dataOffset)| && At(bytes, entry.dataOffset)[..|data|] == data
  }

  lemma {:induction false} FirstHolds(bytes: string, pos: nat, e: Encoding, d: Draft, index: nat, rest: string)
    requires Readable(e, d) && Text.StandsAt(bytes, pos, PrintRecord(e, d, rest))
    ensures Holds(bytes, ExpectedEntry(e, d, index, pos), index, d.name, d.data)
    ensures Text.StandsAt(bytes, NextPosition(ExpectedRecord(e, d, pos), e), rest)
  {
    RecordReads(bytes, pos, e, d, rest);
    PayloadPast(bytes, ExpectedRecord(e, d, pos).dataOffset, e, d, rest);
  }

  /** Every entry holds its record. */
  ghost predicate AllHold(bytes: string, pos: nat, e: Encoding, drafts: seq<Draft>, index: nat)
    decreases |drafts|
  {
    drafts != [] ==>
      && Holds(bytes, ExpectedEntry(e, drafts[0], index, pos), index, drafts[0].name, drafts[0].data)
      && AllHold(bytes, NextPosition(ExpectedRecord(e, drafts[0], pos), e), e, drafts[1..], index + 1)
  }

  lemma {:induction false} RecordsHold(bytes: string, pos: nat, e: Encoding, drafts: seq<Draft>, index: nat, rest: string)
    requires AllReadable(e, drafts) && Text.StandsAt(bytes, pos, PrintRecords(e, drafts, rest))
    ensures AllHold(bytes, pos, e, drafts, index)
    decreases |drafts|
  {
    if drafts != [] {
      FirstHolds(bytes, pos, e, drafts[0], index, PrintRecords(e, drafts[1..], rest));
      assert AllReadable(e, drafts[1..]);
      RecordsHold(bytes, NextPosition(ExpectedRecord(e, drafts[0], pos), e), e, drafts[1..], index + 1, rest);
    }
  }

  lemma {:induction false} HoldsAt(bytes: string, pos: nat, e: Encoding, drafts: seq<Draft>, index: nat, i: nat)
    requires AllHold(bytes, pos, e, drafts, index) && i < |drafts|
    ensures Holds(bytes, ExpectedEntries(e, drafts, index, pos)[i], index + i, drafts[i].name, drafts[i].data)
    decreases |drafts|
  {
    if i > 0 {
      HoldsAt(bytes, NextPosition(ExpectedRecord(e, drafts[0], pos), e), e, drafts[1..], index + 1, i - 1);
    }
  }

  /** Every entry holds its record, wherever the records stand. */
  lemma {:induction false} PayloadsInPlace(
    bytes: string, pos: nat, e: Encoding, drafts: seq<Draft>, index: nat, rest: string, i: nat)
    requires AllReadable(e, drafts) && Text.StandsAt(bytes, pos, PrintRecords(e, drafts, rest)) && i < |drafts|
    ensures Holds(bytes, ExpectedEntries(e, drafts, index, pos)[i], index + i, drafts[i].name, drafts[i].data)
  {
    RecordsHold(bytes, pos, e, drafts, index, rest);
    HoldsAt(bytes, pos, e, drafts, index, i);
  }

  // ----- whole archives

  /** A member with a name and nothing else. */
  function Nameplate(name: string): Member {
    Member(name, Other(0), 0, 0, 0, 0, (0, 0), (0, 0), (0, 0), 1, "")
  }

  const TRAILER_MEMBER := Nameplate("TRAILER!!!")

  function Drafted(format: Format, m: Member): Draft {
    Draft(PrintHeader(format, NumbersOf(format, m)), ExpectedHeader(format, NumbersOf(format, m)), m.name, m.data)
  }

  function Drafts(format: Format, members: seq<Member>): (drafts: seq<Draft>)
    ensures |drafts| == |members|
    ensures forall i :: 0 <= i < |members| ==> drafts[i] == Drafted(format, members[i])
  {
    seq(|members|, i requires 0 <= i < |members| => Drafted(format, members[i]))
  }

  /** Members, the trailer, and whatever follows it. */
  function PrintArchive(format: Format, members: seq<Member>, rest: string): string {
    var e := EncodingOf(format);
    PrintRecords(e, Drafts(format, members), PrintRecord(e, Drafted(format, TRAILER_MEMBER), rest))
  }

  lemma {:induction false} DraftsAreReadable(format: Format, m: Member)
    requires Printable(format, m)
    ensures Readable(EncodingOf(format), Drafted(format, m))
  {
    var n := NumbersOf(format, m);
    forall rest ensures ReadHeader(PrintHeader(format, n) + rest, format) == Ok(ExpectedHeader(format, n)) {
      HeaderReads(format, n, rest);
    }
  }

  lemma {:induction false} Limits()
    ensures Limit(Hex, 8) == 0x1_0000_0000 && Limit(Octal, 6) == 0x4_0000 && Limit(Octal, 11) == 0x2_0000_0000
  {
    assert Limit(Hex, 2) == 256;
    assert Limit(Hex, 4) == 0x1_0000;
    assert Limit(Hex, 6) == 0x100_0000;
    assert Limit(Octal, 2) == 64;
    assert Limit(Octal, 4) == 4096;
    assert Limit(Octal, 6) == 0x4_0000;
    assert Limit(Octal, 8) == 0x100_0000;
    assert Limit(Octal, 10) == 0x4000_0000;
  }

  predicate HasRoom(f: Field) {
    match f
    case Number(base, w) => w > 0 && Limit(base, w) >= 64
    case Unread(w) => Limit(Octal, w) >= 64
    case Word(_) => true
  }

  lemma {:induction false} LayoutHasRoom(format: Format, i: nat)
    requires i < |Layout(format)|
    ensures HasRoom(Layout(format)[i])
  {
    Limits();
  }

  lemma {:induction false} SmallValuesFit(fields: seq<Field>, values: seq<nat>)
    requires |fields| == |values|
    requires forall i :: 0 <= i < |fields| ==> HasRoom(fields[i]) && values[i] < 64
    ensures AllFit(fields, values)
  {
  }

  predicate IsSmall(n: Numbers) {
    && n.inode < 64 && n.mode < 64 && n.owner.0 < 64 && n.owner.1 < 64 && n.nlink < 64 && n.mtime < 64
    && n.size < 64 && n.device.0 < 64 && n.device.1 < 64 && n.special.0 < 64 && n.special.1 < 64
    && n.nameSize < 64 && n.check < 64
  }

  lemma {:induction false} SmallValues(format: Format, n: Numbers)
    requires IsSmall(n)
    ensures NumbersFit(format, n)
  {
    var fields, values := Layout(format), Values(format, n);
    forall i | 0 <= i < |fields| ensures HasRoom(fields[i]) {
      LayoutHasRoom(format, i);
    }
    SmallValuesFit(fields, values);
  }

  lemma {:induction false} EmptySum(data: string)
    requires data == ""
    ensures StoredSum(data) == 0
  {
  }

  lemma {:induction false} NoMode(m: Member)
    requires m.sort == Other(0) && m.permissions == 0 && m.high == 0
    ensures ModeOf(m) == 0
  {
  }

  lemma {:induction false} SmallMember(format: Format, m: Member)
    requires |m.name| < 63 && |m.data| < 64 && ModeOf(m) == 0 && StoredSum(m.data) == 0
    requires m.mtime == m.inode == 0 && m.owner == m.device == m.special == (0, 0) && m.nlink == 1
    ensures IsSmall(NumbersOf(format, m))
  {
  }

  lemma {:induction false} NameplateIsPrintable(format: Format, name: string)
    requires |name| == 10
    ensures Printable(format, Nameplate(name))
  {
    var m := Nameplate(name);
    NoMode(m);
    EmptySum(m.data);
    SmallMember(format, m);
    SmallValues(format, NumbersOf(format, m));
  }

  lemma {:induction false} TrailerIsPrintable(format: Format)
    ensures Printable(format, TRAILER_MEMBER)
  {
    NameplateIsPrintable(format, "TRAILER!!!");
  }

  lemma {:induction false} DetectsFormat(format: Format, bytes: string)
    requires Magic(format) <= bytes && |bytes| >= 6
    ensures Detect(bytes) == Ok(format)
  {
    var m := Magic(format);
    assert bytes[..|m|] == m;
    if format.Binary? {
      assert bytes[0] == m[0] && bytes[1] == m[1];
      assert bytes[..6][0] == m[0];
      assert "070701"[0] == '0' && "070702"[0] == '0' && "070707"[0] == '0';
    } else {
      assert "070701"[5] == '1' && "070702"[5] == '2' && "070707"[5] == '7';
    }
  }

  lemma {:induction false} RecordStartsWithMagic(format: Format, m: Member, rest: string)
    ensures Magic(format) <= PrintRecord(EncodingOf(format), Drafted(format, m), rest)
    ensures |PrintRecord(EncodingOf(format), Drafted(format, m), rest)| >= 6
  {
    var bytes := PrintRecord(EncodingOf(format), Drafted(format, m), rest);
    var n := NumbersOf(format, m);
    LayoutIsPrinted(format, n);
    assert bytes[..HeaderSize(format)] == PrintHeader(format, n);
    assert PrintHeader(format, n)[..|Magic(format)|] == Magic(format);
    assert bytes[..HeaderSize(format)][..|Magic(format)|] == bytes[..|Magic(format)|];
  }

  lemma {:induction false} ArchiveIsDetected(format: Format, members: seq<Member>, rest: string)
    ensures Detect(PrintArchive(format, members, rest)) == Ok(format)
  {
    var e, drafts := EncodingOf(format), Drafts(format, members);
    if members == [] {
      RecordStartsWithMagic(format, TRAILER_MEMBER, rest);
    } else {
      RecordStartsWithMagic(format, members[0],
                            PrintRecords(e, drafts[1..], PrintRecord(e, Drafted(format, TRAILER_MEMBER), rest)));
    }
    DetectsFormat(format, PrintArchive(format, members, rest));
  }

  ghost predicate ValidMembers(format: Format, members: seq<Member>) {
    forall i :: 0 <= i < |members| ==> ValidMember(format, members[i])
  }

  lemma {:induction false} AllDraftsAreReadable(format: Format, members: seq<Member>)
    requires ValidMembers(format, members)
    ensures AllReadable(EncodingOf(format), Drafts(format, members))
  {
    forall i | 0 <= i < |members| ensures Readable(EncodingOf(format), Drafts(format, members)[i]) {
      DraftsAreReadable(format, members[i]);
    }
  }

  lemma {:induction false} PrintedEntriesRead(format: Format, members: seq<Member>, rest: string)
    requires ValidMembers(format, members)
    ensures ReadEntries(PrintArchive(format, members, rest), 0, EncodingOf(format), 0) ==
            Ok(ExpectedEntries(EncodingOf(format), Drafts(format, members), 0, 0))
  {
    var bytes := PrintArchive(format, members, rest);
    AllDraftsAreReadable(format, members);
    TrailerIsPrintable(format);
    DraftsAreReadable(format, TRAILER_MEMBER);
    assert Text.StandsAt(bytes, 0, bytes);
    EntriesRead(bytes, 0, EncodingOf(format), Drafts(format, members), Drafted(format, TRAILER_MEMBER), 0, rest);
  }

  lemma {:induction false} ArchiveReads(format: Format, members: seq<Member>, rest: string)
    requires ValidMembers(format, members)
    ensures Archive(PrintArchive(format, members, rest)) ==
            Ok(AllLinked(ExpectedEntries(EncodingOf(format), Drafts(format, members), 0, 0)))
  {
    ArchiveIsDetected(format, members, rest);
    PrintedEntriesRead(format, members, rest);
  }

  // ----- what the entries show

  /** The key by which the reader tells files apart. */
  function FileKey(format: Format, m: Member): (nat, (nat, nat)) {
    (m.inode, if format.Newc? || format.Crc? then m.owner else (m.device.0, 0))
  }

  /** The entry shows the numbers of its member. */
  predicate ShowsNumbers(format: Format, m: Member, index: nat, entry: Entry) {
    && entry.index == index && entry.path == m.name && entry.size == |m.data|
    && entry.mode == ModeOf(m) && entry.mtime == m.mtime && entry.nlink == m.nlink
    && (entry.inode, entry.device) == FileKey(format, m)
    && entry.checksum == if format.Crc? then Some(StoredSum(m.data)) else None
  }

  /** The entry shows what its member is. */
  predicate ShowsSort(m: Member, entry: Entry) {
    && entry.kind == ShownKind(m.sort)
    && entry.linkTarget == if m.sort.SymbolicLink? then Some(m.data) else None
  }

  /** A file with data and the key of member `i`. */
  predicate IsTwin(format: Format, members: seq<Member>, i: nat, t: nat)
    requires i < |members| && t < |members|
  {
    members[t].sort.Regular? && members[t].data != "" && FileKey(format, members[t]) == FileKey(format, members[i])
  }

  predicate IsFirstTwin(format: Format, members: seq<Member>, i: nat, t: nat)
    requires i < |members| && t < |members|
  {
    IsTwin(format, members, i, t) && forall u :: 0 <= u < t ==> !IsTwin(format, members, i, u)
  }

  /** A file without data that claims other names. */
  predicate ClaimsTwin(m: Member) {
    m.sort.Regular? && m.nlink > 1 && m.data == ""
  }

  /** An empty file with several names and a twin is a hard link to its first twin;
      every other member is shown as what it is. */
  ghost predicate Shows(format: Format, members: seq<Member>, i: nat, entry: Entry)
    requires i < |members|
  {
    && ShowsNumbers(format, members[i], i, entry)
    && (forall t :: 0 <= t < |members| && ClaimsTwin(members[i]) && IsFirstTwin(format, members, i, t) ==>
          entry.kind.HardlinkEntry? && entry.linkTarget == Some(members[t].name))
    && (!ClaimsTwin(members[i]) || (forall t :: 0 <= t < |members| ==> !IsTwin(format, members, i, t)) ==>
          ShowsSort(members[i], entry))
  }

  lemma {:induction false} ExpectedShows(
    format: Format, members: seq<Member>, index: nat, pos: nat, i: nat, entry: Entry)
    requires i < |members| && ValidSort(members[i])
    requires entry == ExpectedEntries(EncodingOf(format), Drafts(format, members), index, pos)[i]
    ensures ShowsNumbers(format, members[i], index + i, entry) && ShowsSort(members[i], entry)
  {
    var drafts := Drafts(format, members);
    ExpectedAt(EncodingOf(format), drafts, index, pos, i);
    DraftOf(format, members, i);
    KindOfMember(members[i]);
  }

  lemma {:induction false} ExpectedAt(e: Encoding, drafts: seq<Draft>, index: nat, pos: nat, i: nat)
    requires i < |drafts|
    ensures var entry, d := ExpectedEntries(e, drafts, index, pos)[i], drafts[i];
            && entry.index == index + i && entry.path == d.name && entry.size == d.header.size
            && entry.kind == KindOf(d.header.mode) && entry.mode == d.header.mode && entry.mtime == d.header.mtime
            && entry.linkTarget == (if KindOf(d.header.mode).SymlinkEntry? then Some(d.data) else None)
            && entry.checksum == d.header.checksum && entry.inode == d.header.inode
            && entry.device == d.header.device && entry.nlink == d.header.nlink
    decreases |drafts|
  {
    if i > 0 {
      ExpectedAt(e, drafts[1..], index + 1, NextPosition(ExpectedRecord(e, drafts[0], pos), e), i - 1);
    }
  }

  /** The entries before hard links are resolved. */
  ghost predicate AllShown(format: Format, members: seq<Member>, plain: seq<Entry>) {
    && |plain| == |members|
    && forall i :: 0 <= i < |members| ==> ShowsNumbers(format, members[i], i, plain[i]) && ShowsSort(members[i], plain[i])
  }

  lemma {:induction false} TwinIsTarget(format: Format, members: seq<Member>, plain: seq<Entry>, i: nat, t: nat)
    requires AllShown(format, members, plain) && i < |members| && t < |members|
    ensures IsTarget(plain[t], plain[i].inode, plain[i].device) <==> IsTwin(format, members, i, t)
    ensures (IsCandidate(plain[i]) && plain[i].size == 0) <==> ClaimsTwin(members[i])
  {
  }

  lemma {:induction false} LinkedShows(format: Format, members: seq<Member>, plain: seq<Entry>, i: nat)
    requires AllShown(format, members, plain) && i < |members|
    ensures Shows(format, members, i, AllLinked(plain)[i])
  {
    var entry := AllLinked(plain)[i];
    LinksAreDirect(plain, i);
    forall t | 0 <= t < |members|
      ensures IsTarget(plain[t], plain[i].inode, plain[i].device) <==> IsTwin(format, members, i, t)
      ensures (IsCandidate(plain[i]) && plain[i].size == 0) <==> ClaimsTwin(members[i])
    {
      TwinIsTarget(format, members, plain, i, t);
    }
    forall t | 0 <= t < |members| && ClaimsTwin(members[i]) && IsFirstTwin(format, members, i, t)
      ensures entry.kind.HardlinkEntry? && entry.linkTarget == Some(members[t].name)
    {
      assert entry.kind.HardlinkEntry?;
      var first :| 0 <= first < |plain| && FirstTarget(plain, i, first) && entry.linkTarget == Some(plain[first].path);
      assert IsTwin(format, members, i, first) && !(first < t) && !(t < first);
    }
    assert entry == Linked(plain, plain[i]);
  }

  /** Reading a printed archive gives its members in order, each with its kind, its
      numbers and its link target, empty files with a twin as hard links to it; what
      follows the trailer is ignored. */
  lemma {:induction false} ArchiveRoundTrip(format: Format, members: seq<Member>, rest: string)
    requires ValidMembers(format, members)
    ensures var r := Archive(PrintArchive(format, members, rest));
            && r.Ok? && |r.value| == |members|
            && forall i :: 0 <= i < |members| ==> Shows(format, members, i, r.value[i])
  {
    ArchiveReads(format, members, rest);
    var plain := ExpectedEntries(EncodingOf(format), Drafts(format, members), 0, 0);
    AllExpectedShown(format, members, plain);
    AllLinkedShown(format, members, plain);
  }

  lemma {:induction false} AllExpectedShown(format: Format, members: seq<Member>, plain: seq<Entry>)
    requires ValidMembers(format, members)
    requires plain == ExpectedEntries(EncodingOf(format), Drafts(format, members), 0, 0)
    ensures AllShown(format, members, plain)
  {
    forall i | 0 <= i < |members|
      ensures ShowsNumbers(format, members[i], i, plain[i]) && ShowsSort(members[i], plain[i])
    {
      assert ValidMember(format, members[i]);
      ExpectedShows(format, members, 0, 0, i, plain[i]);
    }
  }

  lemma {:induction false} AllLinkedShown(format: Format, members: seq<Member>, plain: seq<Entry>)
    requires AllShown(format, members, plain)
    ensures forall i :: 0 <= i < |members| ==> Shows(format, members, i, AllLinked(plain)[i])
  {
    forall i | 0 <= i < |members| ensures Shows(format, members, i, AllLinked(plain)[i]) {
      LinkedShows(format, members, plain, i);
    }
  }

  lemma {:induction false} PairLinked(format: Format, members: seq<Member>, entry: Entry)
    requires format.Newc? || format.Crc?
    requires |members| == 2 && members[0].sort.Regular? && members[0].data != "" && ClaimsTwin(members[1])
    requires Shows(format, members, 1, entry)
    ensures entry.kind.HardlinkEntry? <==> members[0].inode == members[1].inode && members[0].owner == members[1].owner
  {
    assert !IsTwin(format, members, 1, 1);
    if IsTwin(format, members, 1, 0) {
      assert IsFirstTwin(format, members, 1, 0);
    } else {
      assert ShowsSort(members[1], entry);
    }
  }

  /** In archives with fields for the owner, it is the owner and not the device that
      makes an empty file a hard link: two files are linked whatever their devices. */
  lemma {:induction false} LinkedByOwner(format: Format, members: seq<Member>, rest: string)
    requires format.Newc? || format.Crc?
    requires ValidMembers(format, members) && |members| == 2
    requires members[0].sort.Regular? && members[0].data != "" && ClaimsTwin(members[1])
    ensures var r := Archive(PrintArchive(format, members, rest));
            && r.Ok? && |r.value| == 2
            && (r.value[1].kind.HardlinkEntry? <==>
                members[0].inode == members[1].inode && members[0].owner == members[1].owner)
  {
    ArchiveRoundTrip(format, members, rest);
    PairLinked(format, members, Archive(PrintArchive(format, members, rest)).value[1]);
  }

  lemma {:induction false} PayloadStands(bytes: string, format: Format, members: seq<Member>, tail: string, i: nat)
    requires ValidMembers(format, members) && i < |members|
    requires bytes == PrintRecords(EncodingOf(format), Drafts(format, members), tail)
    ensures Holds(bytes, ExpectedEntries(EncodingOf(format), Drafts(format, members), 0, 0)[i], i, members[i].name, members[i].data)
  {
    AllDraftsAreReadable(format, members);
    assert Text.StandsAt(bytes, 0, bytes);
    PayloadsInPlace(bytes, 0, EncodingOf(format), Drafts(format, members), 0, tail, i);
    DraftOf(format, members, i);
  }

  lemma {:induction false} ExpectedHolds(format: Format, members: seq<Member>, rest: string, i: nat)
    requires ValidMembers(format, members) && i < |members|
    ensures Holds(PrintArchive(format, members, rest),
                  ExpectedEntries(EncodingOf(format), Drafts(format, members), 0, 0)[i],
                  i, members[i].name, members[i].data)
  {
    var tail := PrintRecord(EncodingOf(format), Drafted(format, TRAILER_MEMBER), rest);
    PayloadStands(PrintArchive(format, members, rest), format, members, tail, i);
  }

  /** The entry of each member names it, and its payload lies at the entry's
      offset. */
  lemma {:induction false} PrintedPayloads(format: Format, members: seq<Member>, rest: string, i: nat)
    requires ValidMembers(format, members) && i < |members|
    ensures var bytes := PrintArchive(format, members, rest);
            && Archive(bytes).Ok? && i < |Archive(bytes).value|
            && Holds(bytes, Archive(bytes).value[i], i, members[i].name, members[i].data)
  {
    ArchiveReads(format, members, rest);
    ExpectedHolds(format, members, rest, i);
    LinkedHolds(PrintArchive(format, members, rest),
                ExpectedEntries(EncodingOf(format), Drafts(format, members), 0, 0), i, members[i].name, members[i].data);
  }

  lemma {:induction false} DraftOf(format: Format, members: seq<Member>, i: nat)
    requires i < |members|
    ensures var d := Drafts(format, members)[i];
            && d.name == members[i].name && d.data == members[i].data
            && d.header == ExpectedHeader(format, NumbersOf(format, members[i]))
  {
    assert Drafts(format, members)[i] == Drafted(format, members[i]);
  }

  lemma {:induction false} ExpectedChecksum(e: Encoding, drafts: seq<Draft>, index: nat, pos: nat, i: nat)
    requires i < |drafts|
    ensures ExpectedEntries(e, drafts, index, pos)[i].checksum == drafts[i].header.checksum
    decreases |drafts|
  {
    if i > 0 {
      ExpectedChecksum(e, drafts[1..], index + 1, NextPosition(ExpectedRecord(e, drafts[0], pos), e), i - 1);
    }
  }

  lemma {:induction false} VerdictOnHeld(bytes: string, entry: Entry, index: nat, name: string, data: string, sum: nat)
    requires Holds(bytes, entry, index, name, data) && entry.checksum == Some(sum)
    ensures Verdict(bytes, entry) == Verified <==>
            (!entry.kind.FileEntry? && !entry.kind.SymlinkEntry?) || ByteSum(data) == sum
  {
  }

  /** Resolving hard links moves no payload and changes no checksum. */
  lemma {:induction false} LinkedHolds(bytes: string, all: seq<Entry>, i: nat, name: string, data: string)
    requires i < |all| && Holds(bytes, all[i], i, name, data)
    ensures Holds(bytes, AllLinked(all)[i], i, name, data) && AllLinked(all)[i].checksum == all[i].checksum
  {
    assert AllLinked(all)[i] == Linked(all, all[i]);
  }

  /** The entry of a crc member, with its stored sum. */
  lemma {:induction false} CrcEntry(format: Format, members: seq<Member>, rest: string, i: nat)
    requires format.Crc? && ValidMembers(format, members) && i < |members|
    ensures var all := ExpectedEntries(EncodingOf(format), Drafts(format, members), 0, 0);
            && Holds(PrintArchive(format, members, rest), AllLinked(all)[i], i, members[i].name, members[i].data)
            && AllLinked(all)[i].checksum == Some(StoredSum(members[i].data))
  {
    var drafts := Drafts(format, members);
    var all := ExpectedEntries(EncodingOf(format), drafts, 0, 0);
    ExpectedHolds(format, members, rest, i);
    ExpectedChecksum(EncodingOf(format), drafts, 0, 0, i);
    LinkedHolds(PrintArchive(format, members, rest), all, i, members[i].name, members[i].data);
  }

  /** Verification accepts the entry. */
  predicate Accepts(bytes: string, entry: Entry) {
    Verdict(bytes, entry) == Verified
  }

  predicate HasPayload(entry: Entry) {
    entry.kind.FileEntry? || entry.kind.SymlinkEntry?
  }

  lemma {:induction false} AcceptsHeld(bytes: string, entry: Entry, i: nat, m: Member)
    requires Holds(bytes, entry, i, m.name, m.data) && entry.checksum == Some(StoredSum(m.data))
    ensures Accepts(bytes, entry) <==> !HasPayload(entry) || ByteSum(m.data) < 0x1_0000_0000
  {
    VerdictOnHeld(bytes, entry, i, m.name, m.data, StoredSum(m.data));
  }

  /** In a printed crc archive, verification accepts a member exactly when it is
      neither a file nor a symbolic link once hard links are resolved, or its byte
      sum is below 2^32: the reader does not reduce the sum it computes to the
      width of the checksum field. */
  lemma {:induction false} CrcAccepts(format: Format, members: seq<Member>, rest: string, i: nat)
    requires format.Crc? && ValidMembers(format, members) && i < |members|
    ensures var bytes := PrintArchive(format, members, rest);
            && Archive(bytes).Ok? && i < |Archive(bytes).value|
            && var entry := Archive(bytes).value[i];
               Accepts(bytes, entry) <==> !HasPayload(entry) || ByteSum(members[i].data) < 0x1_0000_0000
  {
    ArchiveReads(format, members, rest);
    CrcEntry(format, members, rest, i);
    var all := ExpectedEntries(EncodingOf(format), Drafts(format, members), 0, 0);
    AcceptsHeld(PrintArchive(format, members, rest), AllLinked(all)[i], i, members[i]);
  }
}
