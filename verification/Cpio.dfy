/** The CPIO reader: four record encodings, payload extents, hard links and
    checksums.  An archive is a string of bytes. */
module Cpio {

  import opened Wrappers
  import Text

  datatype Format = Newc | Crc | Odc | Binary(littleEndian: bool)

  datatype Kind = FileEntry | DirectoryEntry | SymlinkEntry | HardlinkEntry | SpecialEntry

  datatype Problem = Truncated | UnsupportedMagic | BadMagic | BadNumber | BadNameLength | NoTerminator

  const TRAILER := "TRAILER!!!"
  const MAX_NAME_BYTES: nat := 16 * 1024 * 1024

  // ----- numbers

  datatype Base = Octal | Hex

  function Scale(base: Base, n: nat): nat {
    match base
    case Octal => 8 * n
    case Hex => 16 * n
  }

  function DigitOf(base: Base, n: nat): nat {
    match base
    case Octal => n % 8
    case Hex => n % 16
  }

  function WithoutDigit(base: Base, n: nat): nat {
    match base
    case Octal => n / 8
    case Hex => n / 16
  }

  /** Digits of either case. */
  function DigitValue(c: char): nat {
    if '0' <= c <= '9' then c as int - '0' as int
    else if 'a' <= c <= 'f' then c as int - 'a' as int + 10
    else if 'A' <= c <= 'F' then c as int - 'A' as int + 10
    else 99
  }

  predicate IsDigit(base: Base, c: char) {
    DigitValue(c) < Scale(base, 1)
  }

  predicate AreDigits(base: Base, s: string) {
    s != "" && forall i :: 0 <= i < |s| ==> IsDigit(base, s[i])
  }

  function Value(base: Base, s: string): nat {
    if s == "" then 0 else Scale(base, Value(base, s[..|s| - 1])) + DigitValue(s[|s| - 1])
  }

  /** Digits with an optional plus sign. */
  function ParseRadix(base: Base, s: string): Result<nat, Problem> {
    var digits := if s != "" && s[0] == '+' then s[1..] else s;
    if AreDigits(base, digits) then Ok(Value(base, digits)) else Err(BadNumber)
  }

  /** Octal fields may be padded with blanks, and a blank field is zero. */
  function ParseField(base: Base, s: string): Result<nat, Problem> {
    match base
    case Hex => ParseRadix(base, s)
    case Octal => ParseRadix(base, if Text.Trim(s) == "" then "0" else Text.Trim(s))
  }

  // ----- record headers

  datatype Field =
    | Number(base: Base, digits: nat)
    | Unread(digits: nat)
    | Word(little: bool)

  function Width(f: Field): nat {
    if f.Word? then 2 else f.digits
  }

  function TotalWidth(fields: seq<Field>): nat {
    if fields == [] then 0 else Width(fields[0]) + TotalWidth(fields[1..])
  }

  function ReadField(f: Field, s: string): Result<nat, Problem>
    requires |s| == Width(f)
  {
    match f
    case Number(base, _) => ParseField(base, s)
    case Unread(_) => Ok(0)
    case Word(little) =>
      Ok(if little then s[0] as int + 256 * s[1] as int else 256 * s[0] as int + s[1] as int)
  }

  function ReadFields(fields: seq<Field>, s: string): (r: Result<seq<nat>, Problem>)
    requires |s| == TotalWidth(fields)
    ensures r.Ok? ==> |r.value| == |fields|
  {
    if fields == [] then Ok([])
    else
      var w := Width(fields[0]);
      var first :- ReadField(fields[0], s[..w]);
      var rest :- ReadFields(fields[1..], s[w..]);
      Ok([first] + rest)
  }

  function Repeat(f: Field, n: nat): (r: seq<Field>)
    ensures |r| == n
  {
    seq(n, _ => f)
  }

  /** The fields behind the magic of each encoding. */
  function Layout(format: Format): (fields: seq<Field>)
    ensures |fields| == if format.Odc? then 10 else if format.Binary? then 12 else 13
  {
    match format
    case Newc => Repeat(Number(Hex, 8), 13)
    case Crc => Repeat(Number(Hex, 8), 13)
    case Odc =>
      Repeat(Number(Octal, 6), 3) + Repeat(Unread(6), 2) + [Number(Octal, 6), Unread(6), Number(Octal, 11), Number(Octal, 6), Number(Octal, 11)]
    case Binary(little) => Repeat(Word(little), 12)
  }

  function Magic(format: Format): string {
    match format
    case Newc => "070701"
    case Crc => "070702"
    case Odc => "070707"
    case Binary(little) => if little then [0xc7 as char, 0x71 as char] else [0x71 as char, 0xc7 as char]
  }

  function HeaderSize(format: Format): nat {
    match format
    case Newc => 110
    case Crc => 110
    case Odc => 76
    case Binary(_) => 26
  }

  lemma {:induction false} WidthOfRepeat(f: Field, n: nat)
    ensures TotalWidth(Repeat(f, n)) == n * Width(f)
  {
    if n > 0 {
      WidthOfRepeat(f, n - 1);
      assert Repeat(f, n)[1..] == Repeat(f, n - 1);
      assert n * Width(f) == (n - 1) * Width(f) + Width(f);
    }
  }

  lemma {:induction false} WidthAppend(a: seq<Field>, b: seq<Field>)
    ensures TotalWidth(a + b) == TotalWidth(a) + TotalWidth(b)
    decreases |a|
  {
    if a == [] {
      assert a + b == b;
    } else {
      assert (a + b)[1..] == a[1..] + b;
      WidthAppend(a[1..], b);
    }
  }

  /** The fields fill the header. */
  lemma {:induction false} HeaderSizes(format: Format)
    ensures |Magic(format)| + TotalWidth(Layout(format)) == HeaderSize(format)
  {
    match format
    case Newc => WidthOfRepeat(Number(Hex, 8), 13);
    case Crc => WidthOfRepeat(Number(Hex, 8), 13);
    case Binary(little) => WidthOfRepeat(Word(little), 12);
    case Odc =>
      var a, b := Repeat(Number(Octal, 6), 3), Repeat(Unread(6), 2);
      var c := [Number(Octal, 6), Unread(6), Number(Octal, 11), Number(Octal, 6), Number(Octal, 11)];
      WidthAppend(a + b, c);
      WidthAppend(a, b);
      WidthOfRepeat(Number(Octal, 6), 3);
      WidthOfRepeat(Unread(6), 2);
      assert c[1..] == [Unread(6), Number(Octal, 11), Number(Octal, 6), Number(Octal, 11)];
      assert c[2..] == [Number(Octal, 11), Number(Octal, 6), Number(Octal, 11)];
      assert TotalWidth(c) == 40;
  }

  datatype Header = Header(
    mode: nat, mtime: nat, size: nat, nameSize: nat, checksum: Option<nat>,
    inode: nat, device: (nat, nat), nlink: nat)

  function HeaderOf(format: Format, v: seq<nat>): Header
    requires |v| == |Layout(format)|
  {
    match format
    case Newc => Header(v[1], v[5], v[6], v[11], None, v[0], (v[2], v[3]), v[4])
    case Crc => Header(v[1], v[5], v[6], v[11], Some(v[12]), v[0], (v[2], v[3]), v[4])
    case Odc => Header(v[2], v[7], v[9], v[8], None, v[1], (v[0], 0), v[5])
    case Binary(_) => Header(v[2], 65536 * v[7] + v[8], 65536 * v[10] + v[11], v[9], None, v[1], (v[0], 0), v[5])
  }

  /** The header at the front of a text. */
  function ReadHeader(text: string, format: Format): Result<Header, Problem> {
    var m := |Magic(format)|;
    if |text| < HeaderSize(format) then Err(Truncated)
    else if text[..m] != Magic(format) then Err(BadMagic)
    else
      HeaderSizes(format);
      var values :- ReadFields(Layout(format), text[m..HeaderSize(format)]);
      Ok(HeaderOf(format, values))
  }

  /** Records and payloads of an encoding start at multiples of 4, 2 or 1. */
  predicate IsAligned(n: nat, format: Format) {
    match format
    case Newc => n % 4 == 0
    case Crc => n % 4 == 0
    case Odc => true
    case Binary(_) => n % 2 == 0
  }

  /** Padding up to the next multiple. */
  function Padding(size: nat, format: Format): nat {
    match format
    case Newc => (4 - size % 4) % 4
    case Crc => (4 - size % 4) % 4
    case Odc => 0
    case Binary(_) => (2 - size % 2) % 2
  }

  // ----- records

  /** What the rest of the reader needs to know of an encoding. */
  datatype Encoding = Encoding(
    headerSize: nat, padding: nat -> nat, readHeader: string -> Result<Header, Problem>)

  function EncodingOf(format: Format): Encoding {
    Encoding(HeaderSize(format), (n: nat) => Padding(n, format), (text: string) => ReadHeader(text, format))
  }

  /** What is left of the archive at a position, which may lie beyond its end. */
  function At(bytes: string, pos: nat): string {
    if pos <= |bytes| then bytes[pos..] else ""
  }

  function ReadName(text: string, size: nat): Result<string, Problem> {
    if size == 0 || size > MAX_NAME_BYTES then Err(BadNameLength)
    else if |text| < size then Err(Truncated)
    else if text[size - 1] != '\0' then Err(NoTerminator)
    else Ok(text[..size - 1])
  }

  datatype Record = Record(name: string, header: Header, dataOffset: nat)

  /** The size of a header and name, padded. */
  function FrontSize(e: Encoding, nameSize: nat): nat {
    e.headerSize + nameSize + e.padding(e.headerSize + nameSize)
  }

  function PayloadSize(e: Encoding, size: nat): nat {
    size + e.padding(size)
  }

  function ReadRecord(bytes: string, pos: nat, e: Encoding): (r: Result<Record, Problem>)
    ensures r.Ok? ==> pos < |bytes| && r.value.dataOffset == pos + FrontSize(e, r.value.header.nameSize) > pos
  {
    var h :- e.readHeader(At(bytes, pos));
    var name :- ReadName(At(bytes, pos + e.headerSize), h.nameSize);
    Ok(Record(name, h, pos + FrontSize(e, h.nameSize)))
  }

  // ----- entries

  datatype Entry = Entry(
    index: nat, path: string, kind: Kind, size: nat, mode: nat, mtime: nat, linkTarget: Option<string>,
    dataOffset: nat, checksum: Option<nat>, inode: nat, device: (nat, nat), nlink: nat)

  /** The file type bits of a Unix mode. */
  function KindOf(mode: nat): Kind {
    match mode / 0x1000 % 16
    case 4 => DirectoryEntry
    case 10 => SymlinkEntry
    case 8 => FileEntry
    case _ => SpecialEntry
  }

  function LinkTarget(bytes: string, r: Record): Result<Option<string>, Problem> {
    if !KindOf(r.header.mode).SymlinkEntry? then Ok(None)
    else if |At(bytes, r.dataOffset)| < r.header.size then Err(Truncated)
    else Ok(Some(At(bytes, r.dataOffset)[..r.header.size]))
  }

  function EntryOf(r: Record, index: nat, target: Option<string>): Entry {
    var h := r.header;
    Entry(index, r.name, KindOf(h.mode), h.size, h.mode, h.mtime, target, r.dataOffset, h.checksum, h.inode, h.device, h.nlink)
  }

  function NextPosition(r: Record, e: Encoding): nat {
    r.dataOffset + PayloadSize(e, r.header.size)
  }

  function ReadEntries(bytes: string, pos: nat, e: Encoding, index: nat): Result<seq<Entry>, Problem>
    decreases |bytes| - pos
  {
    var r :- ReadRecord(bytes, pos, e);
    if r.name == TRAILER then Ok([])
    else
      var target :- LinkTarget(bytes, r);
      var rest :- ReadEntries(bytes, NextPosition(r, e), e, index + 1);
      Ok([EntryOf(r, index, target)] + rest)
  }

  function Detect(bytes: string): Result<Format, Problem> {
    if |bytes| < 6 then Err(Truncated)
    else if bytes[..6] == Magic(Newc) then Ok(Newc)
    else if bytes[..6] == Magic(Crc) then Ok(Crc)
    else if bytes[..6] == Magic(Odc) then Ok(Odc)
    else if bytes[..2] == Magic(Binary(false)) then Ok(Binary(false))
    else if bytes[..2] == Magic(Binary(true)) then Ok(Binary(true))
    else Err(UnsupportedMagic)
  }

  // ----- hard links

  predicate IsCandidate(e: Entry) {
    e.kind.FileEntry? && e.nlink > 1
  }

  predicate IsTarget(e: Entry, inode: nat, device: (nat, nat)) {
    e.kind.FileEntry? && e.size != 0 && e.inode == inode && e.device == device
  }

  /** The first non-empty file with the given inode and device key. */
  function FindTarget(entries: seq<Entry>, inode: nat, device: (nat, nat)): Option<Entry> {
    if entries == [] then None
    else if IsTarget(entries[0], inode, device) then Some(entries[0])
    else FindTarget(entries[1..], inode, device)
  }

  /** An entry as the finished listing shows it. */
  function Linked(all: seq<Entry>, e: Entry): Entry {
    if IsCandidate(e) && e.size == 0 && FindTarget(all, e.inode, e.device).Some?
    then e.(kind := HardlinkEntry, linkTarget := Some(FindTarget(all, e.inode, e.device).value.path))
    else e
  }

  function AllLinked(entries: seq<Entry>): (r: seq<Entry>)
    ensures |r| == |entries|
  {
    seq(|entries|, i requires 0 <= i < |entries| => Linked(entries, entries[i]))
  }

  /** The parsed archive. */
  function Archive(bytes: string): Result<seq<Entry>, Problem> {
    var format :- Detect(bytes);
    var entries :- ReadEntries(bytes, 0, EncodingOf(format), 0);
    Ok(AllLinked(entries))
  }

  /** Two lists that differ only in entries of size zero have the same targets. */
  ghost predicate SameTargets(a: seq<Entry>, b: seq<Entry>) {
    && |a| == |b|
    && forall i :: 0 <= i < |a| ==>
         a[i] == b[i] || (a[i].size == 0 && b[i].size == 0)
  }

  lemma {:induction false} SameFind(a: seq<Entry>, b: seq<Entry>, inode: nat, device: (nat, nat))
    requires SameTargets(a, b)
    ensures FindTarget(a, inode, device) == FindTarget(b, inode, device)
    decreases |a|
  {
    if a != [] {
      assert SameTargets(a[1..], b[1..]);
      SameFind(a[1..], b[1..], inode, device);
    }
  }

  /** The links after some of the candidates have been handled. */
  ghost predicate PartlyLinked(original: seq<Entry>, entries: seq<Entry>, handled: seq<nat>) {
    && |entries| == |original|
    && forall i :: 0 <= i < |original| ==>
         entries[i] == if i in handled then Linked(original, original[i]) else original[i]
  }

  /** `assign_hardlinks`: edits the entries in place, one candidate after another.
      The result is the same for every order of the candidates. */
  method AssignHardlinks(original: seq<Entry>, candidates: seq<nat>) returns (entries: seq<Entry>)
    requires AreCandidates(candidates, original)
    ensures entries == AllLinked(original)
  {
    entries := original;
    for n := 0 to |candidates|
      invariant PartlyLinked(original, entries, candidates[..n])
    {
      var index := candidates[n];
      assert index in candidates;
      assert candidates[..n + 1] == candidates[..n] + [index];
      assert SameTargets(entries, original);
      var inode, device := original[index].inode, original[index].device;
      SameFind(entries, original, inode, device);
      if entries[index].size != 0 {
        continue;
      }
      var target := FindTarget(entries, inode, device);
      if target.None? {
        continue;
      }
      entries := entries[index := entries[index].(kind := HardlinkEntry, linkTarget := Some(target.value.path))];
    }
    assert candidates[..|candidates|] == candidates;
    forall i | 0 <= i < |original| ensures entries[i] == Linked(original, original[i]) {
    }
  }

  // ----- the loops

  /** The candidates are the entries that may be hard links. */
  ghost predicate AreCandidates(candidates: seq<nat>, entries: seq<Entry>) {
    forall k :: k in candidates <==> 0 <= k < |entries| && IsCandidate(entries[k])
  }

  lemma {:induction false} CandidatesAppend(candidates: seq<nat>, entries: seq<Entry>, e: Entry)
    requires AreCandidates(candidates, entries)
    ensures AreCandidates(if IsCandidate(e) then candidates + [|entries|] else candidates, entries + [e])
  {
  }

  /** `parse`: records up to the trailer, then the hard links. */
  method Parse(bytes: string) returns (r: Result<seq<Entry>, Problem>)
    ensures r == Archive(bytes)
  {
    var format :- Detect(bytes);
    var scanned := Scan(bytes, EncodingOf(format));
    if scanned.Err? {
      return Err(scanned.error);
    }
    var entries := AssignHardlinks(scanned.value.0, scanned.value.1);
    return Ok(entries);
  }

  lemma {:induction false} EntriesStep(bytes: string, pos: nat, e: Encoding, index: nat, r: Record, target: Option<string>)
    requires ReadRecord(bytes, pos, e) == Ok(r) && r.name != TRAILER && LinkTarget(bytes, r) == Ok(target)
    ensures var rest := ReadEntries(bytes, NextPosition(r, e), e, index + 1);
            ReadEntries(bytes, pos, e, index) == if rest.Err? then rest else Ok([EntryOf(r, index, target)] + rest.value)
  {
  }

  /** The loop over the records, collecting entries and hard-link candidates. */
  method Scan(bytes: string, e: Encoding) returns (r: Result<(seq<Entry>, seq<nat>), Problem>)
    ensures r.Err? ==> ReadEntries(bytes, 0, e, 0) == Err(r.error)
    ensures r.Ok? ==> ReadEntries(bytes, 0, e, 0) == Ok(r.value.0) && AreCandidates(r.value.1, r.value.0)
  {
    var entries: seq<Entry> := [];
    var candidates: seq<nat> := [];
    var pos := 0;
    ghost var whole := ReadEntries(bytes, 0, e, 0);
    assert Read(whole, entries, ReadEntries(bytes, pos, e, |entries|)) by {
      assert whole.Ok? ==> [] + whole.value == whole.value;
    }
    while true
      invariant Read(whole, entries, ReadEntries(bytes, pos, e, |entries|))
      invariant AreCandidates(candidates, entries)
      decreases |bytes| - pos
    {
      var record :- ReadRecord(bytes, pos, e);
      if record.name == TRAILER {
        assert entries + [] == entries;
        return Ok((entries, candidates));
      }
      var target :- LinkTarget(bytes, record);
      var entry := EntryOf(record, |entries|, target);
      CandidatesAppend(candidates, entries, entry);
      if entry.kind.FileEntry? && entry.nlink > 1 {
        candidates := candidates + [|entries|];
      }
      EntriesStep(bytes, pos, e, |entries|, record, target);
      ReadOne(whole, entries, entry, ReadEntries(bytes, NextPosition(record, e), e, |entries| + 1));
      entries := entries + [entry];
      pos := NextPosition(record, e);
    }
  }

  /** The whole result is what has been read, continued by the rest. */
  ghost predicate Read(whole: Result<seq<Entry>, Problem>, entries: seq<Entry>, rest: Result<seq<Entry>, Problem>) {
    match rest
    case Err(e) => whole == Err(e)
    case Ok(more) => whole == Ok(entries + more)
  }

  lemma {:induction false} ReadOne(whole: Result<seq<Entry>, Problem>, entries: seq<Entry>, entry: Entry, rest: Result<seq<Entry>, Problem>)
    requires Read(whole, entries, if rest.Err? then rest else Ok([entry] + rest.value))
    ensures Read(whole, entries + [entry], rest)
  {
    if rest.Ok? {
      assert entries + ([entry] + rest.value) == (entries + [entry]) + rest.value;
    }
  }

  // ----- payloads

  function ByteSum(s: string): nat {
    if s == "" then 0 else ByteSum(s[..|s| - 1]) + s[|s| - 1] as int
  }

  lemma {:induction false} ByteSumAppend(a: string, b: string)
    ensures ByteSum(a + b) == ByteSum(a) + ByteSum(b)
    decreases |b|
  {
    if b == "" {
      assert a + b == a;
    } else {
      assert (a + b)[..|a + b| - 1] == a + b[..|b| - 1];
      ByteSumAppend(a, b[..|b| - 1]);
    }
  }

  method SumBytes(s: string) returns (sum: nat)
    ensures sum == ByteSum(s)
  {
    sum := 0;
    for i := 0 to |s|
      invariant sum == ByteSum(s[..i])
    {
      assert s[..i + 1][..i] == s[..i];
      sum := sum + s[i] as int;
    }
    assert s[..|s|] == s;
  }

  /** `copy_payload`: copies in pieces of any sizes.  For crc archives the result
      is the byte sum rather than the number of bytes. */
  method CopyPayload(bytes: string, entry: Entry, sizes: nat -> nat) returns (r: Result<nat, Problem>, written: string)
    requires forall i :: sizes(i) > 0
    ensures var payload := At(bytes, entry.dataOffset);
            if |payload| < entry.size then r == Err(Truncated) && written == payload
            else
              && written == payload[..entry.size]
              && r == Ok(if entry.checksum.Some? then ByteSum(written) else entry.size)
  {
    var rest := At(bytes, entry.dataOffset);
    var limit := if |rest| < entry.size then |rest| else entry.size;
    ghost var payload := rest;
    written := "";
    var checksum := 0;
    var calls := 0;
    while |written| < limit
      invariant |written| <= limit && written == payload[..|written|] && checksum == ByteSum(written)
    {
      var n := |written|;
      var take := if n + sizes(calls) <= limit then sizes(calls) else limit - n;
      var piece := rest[n..n + take];
      ByteSumAppend(written, piece);
      var sum := SumBytes(piece);
      written := written + piece;
      checksum := checksum + sum;
      calls := calls + 1;
    }
    if |written| != entry.size {
      return Err(Truncated), written;
    }
    return Ok(if entry.checksum.Some? then checksum else |written|), written;
  }

  datatype Verification = Verified | ChecksumMismatch | PayloadTruncated

  /** What verifying an entry's payload finds. */
  function Verdict(bytes: string, entry: Entry): Verification {
    var payload := At(bytes, entry.dataOffset);
    if !entry.kind.FileEntry? && !entry.kind.SymlinkEntry? then Verified
    else if |payload| < entry.size then PayloadTruncated
    else if entry.checksum.Some? && ByteSum(payload[..entry.size]) != entry.checksum.value then ChecksumMismatch
    else Verified
  }

  /** `verify_payload`. */
  method VerifyPayload(bytes: string, entry: Entry, sizes: nat -> nat) returns (v: Verification)
    requires forall i :: sizes(i) > 0
    ensures v == Verdict(bytes, entry)
  {
    if !entry.kind.FileEntry? && !entry.kind.SymlinkEntry? {
      return Verified;
    }
    var sum, _ := CopyPayload(bytes, entry, sizes);
    if sum.Err? {
      return PayloadTruncated;
    }
    if entry.checksum.Some? && sum.value != entry.checksum.value {
      return ChecksumMismatch;
    }
    return Verified;
  }
}
