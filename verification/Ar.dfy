/** The AR reader: member headers, the three name encodings and payload extents.
    An archive is a string of bytes. */
module Ar {

  import opened Wrappers
  import opened Text

  datatype Problem =
    | MissingMagic | TruncatedHeader | BadTrailer | BadNumber | BeyondArchive
    | BadNameLength | NameExceedsMember | BadPadding | EmptyName | NotPresent

  const MAGIC := "!<arch>\n"
  const TRAILER := "`\n"
  const HEADER_SIZE: nat := 60

  // ----- headers

  function ParseNumber(field: string): Result<nat, Problem> {
    match ParseU64(Trim(field))
    case None => Err(BadNumber)
    case Some(n) => Ok(n)
  }

  /** Leading zeros are dropped before the digits are read. */
  function ParseOctal(field: string): Result<nat, Problem> {
    var text := DropLeading(Trim(field), '0');
    var digits := if text != "" && text[0] == '+' then text[1..] else text;
    if text == "" then Ok(0)
    else if IsNumeral(digits, 8) && Value(digits, 8) < 0x1_0000_0000 then Ok(Value(digits, 8))
    else Err(BadNumber)
  }

  /** What the name field of a header announces. */
  datatype Kind = Ordinary | StringTable | SymbolTable | NameInFront(length: nat)

  function Classify(token: string): Result<Kind, Problem> {
    if "#1/" <= token then
      match ParseU64(token[3..])
      case None => Err(BadNameLength)
      case Some(n) => Ok(NameInFront(n))
    else if token == "//" then Ok(StringTable)
    else if token in {"/", "/SYM64/"} || "__.SYMDEF" <= token then Ok(SymbolTable)
    else Ok(Ordinary)
  }

  /** A header; a bad name length is reported only after the extent is checked. */
  datatype Header = Header(token: string, kind: Result<Kind, Problem>, modified: nat, mode: nat, size: nat)

  function ReadHeader(h: string): Result<Header, Problem> {
    if |h| != HEADER_SIZE then Err(TruncatedHeader)
    else if h[58..] != TRAILER then Err(BadTrailer)
    else
      var modified :- ParseNumber(h[16..28]);
      var mode :- ParseOctal(h[40..48]);
      var size :- ParseNumber(h[48..58]);
      var token := Trim(h[..16]);
      Ok(Header(token, Classify(token), modified, mode, size))
  }

  type HeaderReader = string -> Result<Header, Problem>

  // ----- members

  /** A member as the first pass records it. */
  datatype Raw = Raw(
    token: string, kind: Kind, bsdName: Option<string>, size: nat, dataOffset: nat, modified: nat, mode: nat)

  datatype Member = Member(raw: Raw, end: nat)

  /** The length of a name stored in front of the payload. */
  function NameLength(kind: Kind): nat {
    if kind.NameInFront? then kind.length else 0
  }

  function MemberOf(bytes: string, data: nat, h: Header, kind: Kind): Member
    requires NameLength(kind) <= h.size && data + h.size <= |bytes|
  {
    var n := NameLength(kind);
    var name := if kind.NameInFront? then Some(DropTrailing(bytes[data..data + n], '\0')) else None;
    Member(Raw(h.token, kind, name, h.size - n, data + n, h.modified, h.mode), data + h.size + h.size % 2)
  }

  /** What follows the header of a member: its name, its payload, its padding. */
  function ReadBody(bytes: string, data: nat, h: Header): (r: Result<Member, Problem>)
    requires data <= |bytes|
    ensures r.Ok? ==>
              && data <= r.value.raw.dataOffset
              && r.value.raw.dataOffset + r.value.raw.size <= r.value.end <= |bytes|
  {
    if data + h.size + h.size % 2 > |bytes| then Err(BeyondArchive)
    else
      var k :- h.kind;
      if NameLength(k) > h.size then Err(NameExceedsMember)
      else if h.size % 2 == 1 && bytes[data + h.size] != '\n' then Err(BadPadding)
      else Ok(MemberOf(bytes, data, h, k))
  }

  function ReadMember(bytes: string, pos: nat, read: HeaderReader): (r: Result<Member, Problem>)
    requires pos <= |bytes|
    ensures r.Ok? ==>
              && pos + HEADER_SIZE <= r.value.raw.dataOffset
              && r.value.raw.dataOffset + r.value.raw.size <= r.value.end <= |bytes|
  {
    if |bytes| - pos < HEADER_SIZE then Err(TruncatedHeader)
    else
      var h :- read(bytes[pos..pos + HEADER_SIZE]);
      ReadBody(bytes, pos + HEADER_SIZE, h)
  }

  /** The members that are entries, and the last string table seen. */
  datatype Scanned = Scanned(raws: seq<Raw>, table: string)

  function Payload(bytes: string, raw: Raw): string
    requires raw.dataOffset + raw.size <= |bytes|
  {
    bytes[raw.dataOffset..raw.dataOffset + raw.size]
  }

  function TableAfter(bytes: string, raw: Raw, table: string): string
    requires raw.dataOffset + raw.size <= |bytes|
  {
    if raw.kind.StringTable? then Payload(bytes, raw) else table
  }

  function Listed(raw: Raw): seq<Raw> {
    if raw.kind.StringTable? || raw.kind.SymbolTable? then [] else [raw]
  }

  function Scan(bytes: string, pos: nat, table: string, read: HeaderReader): Result<Scanned, Problem>
    requires pos <= |bytes|
    decreases |bytes| - pos
  {
    if pos == |bytes| then Ok(Scanned([], table))
    else
      var m :- ReadMember(bytes, pos, read);
      var rest :- Scan(bytes, m.end, TableAfter(bytes, m.raw, table), read);
      Ok(Scanned(Listed(m.raw) + rest.raws, rest.table))
  }

  // ----- names

  function FirstLine(s: string): (line: string)
    ensures line <= s && '\n' !in line
    ensures |line| < |s| ==> s[|line|] == '\n'
  {
    if s == "" || s[0] == '\n' then "" else [s[0]] + FirstLine(s[1..])
  }

  /** `/offset` names a line of the string table; anything else names itself. */
  function ResolveGnuName(token: string, table: string): string {
    if token == "" || token[0] != '/' then token
    else
      match ParseU64(token[1..])
      case None => token
      case Some(offset) =>
        if offset > |table| then token else DropTrailing(FirstLine(table[offset..]), '/')
  }

  function NameOf(raw: Raw, table: string): string {
    DropTrailing(if raw.bsdName.Some? then raw.bsdName.value else ResolveGnuName(raw.token, table), '/')
  }

  function NamesOf(raws: seq<Raw>, naming: Raw -> string): (names: seq<string>)
    ensures |names| == |raws|
  {
    seq(|raws|, i requires 0 <= i < |raws| => naming(raws[i]))
  }

  /** How members are named, given the string table. */
  function Naming(table: string): Raw -> string {
    (raw: Raw) => NameOf(raw, table)
  }

  datatype Entry = Entry(index: nat, path: string, size: nat, dataOffset: nat, modified: nat, mode: nat)

  function EntryOf(raw: Raw, name: string, index: nat): Entry {
    Entry(index, name, raw.size, raw.dataOffset, raw.modified, raw.mode)
  }

  /** Entries are numbered in order; a member without a name is refused. */
  function Numbered(raws: seq<Raw>, names: seq<string>, index: nat): (r: Result<seq<Entry>, Problem>)
    requires |raws| == |names|
    ensures r.Ok? ==> |r.value| == |raws|
    decreases |raws|
  {
    if raws == [] then Ok([])
    else if names[0] == "" then Err(EmptyName)
    else
      var rest :- Numbered(raws[1..], names[1..], index + 1);
      Ok([EntryOf(raws[0], names[0], index)] + rest)
  }

  function Archive(bytes: string): Result<seq<Entry>, Problem> {
    if !(MAGIC <= bytes) then Err(MissingMagic)
    else
      var s :- Scan(bytes, |MAGIC|, "", ReadHeader);
      Numbered(s.raws, NamesOf(s.raws, Naming(s.table)), 0)
  }

  // ----- the loops

  /** One turn of the loop, moving the file position the way the program does;
      the turn ends exactly at the end of the member. */
  method Advance(bytes: string, header: nat) returns (r: Result<Member, Problem>, position: nat)
    requires header <= |bytes|
    ensures r == ReadMember(bytes, header, ReadHeader)
    ensures r.Ok? ==> position == r.value.end
  {
    position := header;
    if |bytes| - header < HEADER_SIZE {
      return Err(TruncatedHeader), position;
    }
    var h := ReadHeader(bytes[header..header + HEADER_SIZE]);
    position := header + HEADER_SIZE;
    if h.Err? {
      return Err(h.error), position;
    }
    var size, data := h.value.size, position;
    if data + size + size % 2 > |bytes| {
      return Err(BeyondArchive), position;
    }
    var kind := h.value.kind;
    if kind.Err? {
      return Err(kind.error), position;
    }
    var n := NameLength(kind.value);
    if n > size {
      return Err(NameExceedsMember), position;
    }
    var payload := size - n;
    position := position + n;
    position := position + payload;
    if size % 2 == 1 {
      var padding := bytes[position];
      position := position + 1;
      if padding != '\n' {
        return Err(BadPadding), position;
      }
    }
    return Ok(MemberOf(bytes, data, h.value, kind.value)), position;
  }

  /** `parse`: a pass over the members, then a pass that names them. */
  method Parse(bytes: string) returns (r: Result<seq<Entry>, Problem>)
    ensures r == Archive(bytes)
  {
    if !(MAGIC <= bytes) {
      return Err(MissingMagic);
    }
    var raws: seq<Raw> := [];
    var table := "";
    var position: nat := |MAGIC|;
    ghost var whole := Scan(bytes, |MAGIC|, "", ReadHeader);
    assert Continues(whole, raws, whole) by {
      assert whole.Ok? ==> [] + whole.value.raws == whole.value.raws;
    }
    while position != |bytes|
      invariant position <= |bytes| && Continues(whole, raws, Scan(bytes, position, table, ReadHeader))
      decreases |bytes| - position
    {
      var member, next := Advance(bytes, position);
      if member.Err? {
        return Err(member.error);
      }
      var raw := member.value.raw;
      ContinueOne(whole, raws, Listed(raw), Scan(bytes, next, TableAfter(bytes, raw, table), ReadHeader));
      if raw.kind.StringTable? {
        table := Payload(bytes, raw);
      }
      raws := raws + Listed(raw);
      position := next;
    }
    assert raws + [] == raws;
    return Numbered(raws, NamesOf(raws, Naming(table)), 0);
  }

  /** The whole result is what has been gathered, continued by the rest. */
  ghost predicate Continues(whole: Result<Scanned, Problem>, raws: seq<Raw>, rest: Result<Scanned, Problem>) {
    match rest
    case Err(e) => whole == Err(e)
    case Ok(s) => whole == Ok(Scanned(raws + s.raws, s.table))
  }

  lemma {:induction false} ContinueOne(
    whole: Result<Scanned, Problem>, raws: seq<Raw>, more: seq<Raw>, rest: Result<Scanned, Problem>)
    requires Continues(whole, raws, if rest.Err? then rest else Ok(Scanned(more + rest.value.raws, rest.value.table)))
    ensures Continues(whole, raws + more, rest)
  {
    if rest.Ok? {
      assert raws + (more + rest.value.raws) == (raws + more) + rest.value.raws;
    }
  }

  // ----- extents

  /** Payloads follow one another inside the archive, each behind a header. */
  ghost predicate Placed(raws: seq<Raw>, pos: nat, limit: nat) {
    raws != [] ==>
      && pos + HEADER_SIZE <= raws[0].dataOffset && raws[0].dataOffset + raws[0].size <= limit
      && Placed(raws[1..], raws[0].dataOffset + raws[0].size, limit)
  }

  lemma {:induction false} PlacedEarlier(raws: seq<Raw>, pos: nat, later: nat, limit: nat)
    requires Placed(raws, later, limit) && pos <= later
    ensures Placed(raws, pos, limit)
  {
  }

  lemma {:induction false} ScanStep(bytes: string, pos: nat, table: string, read: HeaderReader, m: Member)
    requires pos < |bytes| && ReadMember(bytes, pos, read) == Ok(m)
    ensures var rest := Scan(bytes, m.end, TableAfter(bytes, m.raw, table), read);
            Scan(bytes, pos, table, read) ==
            if rest.Err? then rest else Ok(Scanned(Listed(m.raw) + rest.value.raws, rest.value.table))
  {
  }

  lemma {:induction false} PlacedFirst(raw: Raw, rest: seq<Raw>, pos: nat, end: nat, limit: nat)
    requires pos + HEADER_SIZE <= raw.dataOffset && raw.dataOffset + raw.size <= end <= limit
    requires Placed(rest, end, limit)
    ensures Placed(Listed(raw) + rest, pos, limit)
  {
    PlacedEarlier(rest, raw.dataOffset + raw.size, end, limit);
    PlacedEarlier(rest, pos, end, limit);
    assert ([raw] + rest)[1..] == rest && [] + rest == rest;
  }

  lemma {:induction false} ScanIsPlaced(bytes: string, pos: nat, table: string, read: HeaderReader)
    requires pos <= |bytes| && Scan(bytes, pos, table, read).Ok?
    ensures Placed(Scan(bytes, pos, table, read).value.raws, pos, |bytes|)
    decreases |bytes| - pos
  {
    if pos < |bytes| {
      var m := ReadMember(bytes, pos, read).value;
      ScanStep(bytes, pos, table, read, m);
      var next := TableAfter(bytes, m.raw, table);
      ScanIsPlaced(bytes, m.end, next, read);
      PlacedFirst(m.raw, Scan(bytes, m.end, next, read).value.raws, pos, m.end, |bytes|);
    }
  }

  lemma {:induction false} PlacedAt(raws: seq<Raw>, pos: nat, limit: nat, i: nat)
    requires Placed(raws, pos, limit) && i < |raws|
    ensures pos + HEADER_SIZE <= raws[i].dataOffset && raws[i].dataOffset + raws[i].size <= limit
    ensures i > 0 ==> raws[i - 1].dataOffset + raws[i - 1].size + HEADER_SIZE <= raws[i].dataOffset
    decreases |raws|
  {
    if i > 0 {
      PlacedAt(raws[1..], raws[0].dataOffset + raws[0].size, limit, i - 1);
    }
  }

  lemma {:induction false} NumberedAt(raws: seq<Raw>, names: seq<string>, index: nat, i: nat)
    requires |raws| == |names| && Numbered(raws, names, index).Ok? && i < |raws|
    ensures var e := Numbered(raws, names, index).value[i];
            e == EntryOf(raws[i], names[i], index + i) && e.path != ""
    decreases |raws|
  {
    if i > 0 {
      NumberedAt(raws[1..], names[1..], index + 1, i - 1);
    }
  }

  /** In every archive that reads, entry `i` has index `i` and a name, its payload
      lies inside the archive, and it starts after the one before it has ended. */
  lemma {:induction false} PayloadsAreDisjoint(bytes: string, i: nat)
    requires Archive(bytes).Ok? && i < |Archive(bytes).value|
    ensures var entries := Archive(bytes).value;
            && entries[i].index == i && entries[i].path != ""
            && |MAGIC| + HEADER_SIZE <= entries[i].dataOffset && entries[i].dataOffset + entries[i].size <= |bytes|
            && (i > 0 ==> entries[i - 1].dataOffset + entries[i - 1].size + HEADER_SIZE <= entries[i].dataOffset)
  {
    var s := Scan(bytes, |MAGIC|, "", ReadHeader).value;
    ScanIsPlaced(bytes, |MAGIC|, "", ReadHeader);
    var names := NamesOf(s.raws, Naming(s.table));
    NumberedAt(s.raws, names, 0, i);
    if i > 0 {
      NumberedAt(s.raws, names, 0, i - 1);
    }
    PlacedAt(s.raws, |MAGIC|, |bytes|, i);
  }

  // ----- selection

  function Count(entries: seq<Entry>, path: string): nat {
    if entries == [] then 0
    else Count(entries[..|entries| - 1], path) + if entries[|entries| - 1].path == path then 1 else 0
  }

  /** `find_path_occurrence`: the entry with the given path that has the given
      number of entries with that path before it. */
  method FindPathOccurrence(entries: seq<Entry>, path: string, wanted: nat) returns (r: Result<nat, Problem>)
    requires forall i :: 0 <= i < |entries| ==> entries[i].index == i
    ensures r.Ok? <==> wanted < Count(entries, path)
    ensures r.Ok? ==> r.value < |entries| && entries[r.value].path == path && Count(entries[..r.value], path) == wanted
  {
    var occurrence := 0;
    for i := 0 to |entries|
      invariant occurrence == Count(entries[..i], path) <= wanted
    {
      assert entries[..i + 1][..i] == entries[..i];
      if entries[i].path == path {
        if occurrence == wanted {
          CountGrows(entries, path, i + 1);
          return Ok(entries[i].index);
        }
        occurrence := occurrence + 1;
      }
    }
    assert entries[..|entries|] == entries;
    return Err(NotPresent);
  }

  lemma {:induction false} CountGrows(entries: seq<Entry>, path: string, i: nat)
    requires i <= |entries|
    ensures Count(entries[..i], path) <= Count(entries, path)
    decreases |entries|
  {
    if i < |entries| {
      CountGrows(entries[..|entries| - 1], path, i);
      assert entries[..|entries| - 1][..i] == entries[..i];
    } else {
      assert entries[..i] == entries;
    }
  }
}
