/** The names an installer's tables hold, in print, and the paths they stand for. */
module MsiForms {

  import opened Wrappers
  import opened Text
  import opened Msi

  lemma {:induction false} SplitAt(a: string, c: char, b: string)
    requires c !in a
    ensures SplitOnce(a + [c] + b, c) == Some((a, b))
    decreases |a|
  {
    var s := a + [c] + b;
    if a == "" {
      assert s[0] == c && s[1..] == b;
    } else {
      assert s[0] == a[0] && s[1..] == a[1..] + [c] + b;
      SplitAt(a[1..], c, b);
      assert [a[0]] + a[1..] == a;
    }
  }

  // ----- file names

  /** A name alone, or a short name and a long one. */
  datatype FileName = Single(name: string) | Pair(short: string, long: string)

  function PrintFileName(n: FileName): string {
    match n
    case Single(name) => name
    case Pair(short, long) => short + "|" + long
  }

  predicate ValidFileName(n: FileName) {
    match n
    case Single(name) => '|' !in name
    case Pair(short, _) => '|' !in short
  }

  /** The long name, or the short one if there is no other. */
  function Shown(n: FileName): string {
    match n
    case Single(name) => name
    case Pair(short, long) => if long == "" then short else long
  }

  /** A printed file name shows its long half, or the short one when the long half
      is empty, and is missing exactly when both are. */
  lemma {:induction false} LeafIsShown(n: FileName)
    requires ValidFileName(n)
    ensures FileLeaf(PrintFileName(n)) == if Shown(n) == "" then None else Some(Shown(n))
  {
    if n.Pair? {
      SplitAt(n.short, '|', n.long);
    }
  }

  // ----- directory names

  /** What one part of a `DefaultDir` may be: a name, perhaps behind a short form,
      the parent's own directory, the conventional root, or nothing. */
  datatype Part = Named(short: Option<string>, name: string) | Here | Root | Blank

  const NAME_MARKS: set<char> := {'|', '\\', ':'}

  predicate ValidPart(p: Part) {
    p.Named? ==>
      && p.name != "" && p.name != "." && p.name != "SourceDir" && Free(p.name, NAME_MARKS)
      && (p.short.Some? ==> Free(p.short.value, {'\\', ':'}))
  }

  predicate ValidParts(parts: seq<Part>) {
    forall i :: 0 <= i < |parts| ==> ValidPart(parts[i])
  }

  function PrintPart(p: Part): string {
    match p
    case Named(None, name) => name
    case Named(Some(short), name) => short + "|" + name
    case Here => "."
    case Root => "SourceDir"
    case Blank => ""
  }

  function PrintParts(parts: seq<Part>): seq<string> {
    if parts == [] then [] else [PrintPart(parts[0])] + PrintParts(parts[1..])
  }

  /** The names among the parts, in order. */
  function NamesOf(parts: seq<Part>): seq<string> {
    if parts == [] then [] else (if parts[0].Named? then [parts[0].name] else []) + NamesOf(parts[1..])
  }

  /** The target's parts, and perhaps a source, which is not used. */
  function PrintDefaultDir(parts: seq<Part>, source: Option<string>): string {
    Join(PrintParts(parts), '\\') + if source.Some? then ":" + source.value else ""
  }

  lemma {:induction false} LongNameOf(short: string, name: string)
    requires '|' !in name
    ensures LongName(name) == name && LongName(short + "|" + name) == name
    decreases |short|
  {
    var s := short + "|" + name;
    var halves := SplitOnce(s, '|').value;
    if '|' in short {
      var head, tail := SplitOnce(short, '|').value.0, SplitOnce(short, '|').value.1;
      assert s == head + "|" + (tail + "|" + name);
      SplitAt(head, '|', tail + "|" + name);
      LongNameOf(tail, name);
    } else {
      SplitAt(short, '|', name);
    }
  }

  lemma {:induction false} PartReads(p: Part)
    requires ValidPart(p)
    ensures DirectoryName(PrintPart(p)) == NamesOf([p])
    ensures Free(PrintPart(p), {'\\', ':'})
  {
    assert [p][1..] == [] && NamesOf([]) == [];
    if p.Named? {
      LongNameOf(if p.short.Some? then p.short.value else "", p.name);
    } else {
      LongNameOf("", PrintPart(p));
    }
  }

  lemma {:induction false} PartsRead(parts: seq<Part>)
    requires ValidParts(parts)
    ensures DirectoryNames(PrintParts(parts)) == NamesOf(parts)
    ensures |PrintParts(parts)| == |parts|
    ensures forall i :: 0 <= i < |parts| ==> Free(PrintParts(parts)[i], {'\\', ':'})
    decreases |parts|
  {
    if parts != [] {
      PartReads(parts[0]);
      assert [parts[0]][1..] == [] && NamesOf([]) == [];
      PartsRead(parts[1..]);
    }
  }

  lemma {:induction false} JoinIsFree(pieces: seq<string>, c: char, d: char)
    requires c != d && forall i :: 0 <= i < |pieces| ==> d !in pieces[i]
    ensures d !in Join(pieces, c)
    decreases |pieces|
  {
    if |pieces| > 1 {
      JoinIsFree(pieces[1..], c, d);
    }
  }

  /** A printed `DefaultDir` adds the names of its target, in order: long forms,
      without the parent's own directory and the root, whatever the source is. */
  lemma {:induction false} DirectoryRoundTrip(parts: seq<Part>, source: Option<string>)
    requires parts != [] && ValidParts(parts)
    ensures Components(PrintDefaultDir(parts, source)) == NamesOf(parts)
  {
    var pieces := PrintParts(parts);
    var target := Join(pieces, '\\');
    PartsRead(parts);
    forall i | 0 <= i < |pieces| ensures ':' !in pieces[i] {
      assert Free(pieces[i], {'\\', ':'});
    }
    JoinIsFree(pieces, '\\', ':');
    if source.Some? {
      SplitAt(target, ':', source.value);
      assert target + (":" + source.value) == target + [':'] + source.value;
    } else {
      assert target + "" == target;
    }
    forall i | 0 <= i < |pieces| ensures Free(pieces[i], {'\\'}) {
      assert Free(pieces[i], {'\\', ':'});
    }
    SplitJoin(pieces, '\\', {'\\'});
  }

  // ----- cabinets

  function PrintCabinet(c: Cabinet): string {
    match c
    case Embedded(stream) => "#" + stream
    case External(name) => name
  }

  predicate ValidCabinet(c: Cabinet) {
    c.External? ==> c.name != "" && c.name[0] != '#'
  }

  /** The row at `i` is the first whose range covers the sequence number. */
  ghost predicate FirstCovering(media: seq<Media>, sequence: nat, i: nat) {
    && i < |media| && sequence <= media[i].lastSequence
    && forall k :: 0 <= k < i ==> media[k].lastSequence < sequence
  }

  /** The first media row that covers a sequence number names its cabinet; a row
      without a name, and no row at all, leave the file without one. */
  lemma {:induction false} CabinetIsFirstCovering(media: seq<Media>, sequence: nat, i: nat, c: Cabinet)
    requires FirstCovering(media, sequence, i) && ValidCabinet(c)
    ensures media[i].cabinet == PrintCabinet(c) ==> CabinetOf(media, sequence) == Some(c)
    ensures media[i].cabinet == "" ==> CabinetOf(media, sequence) == None
  {
    assert Covering(media, sequence) == Some(media[i]) by {
      var m := Covering(media, sequence).value;
      var j :| 0 <= j < |media| && media[j] == m && sequence <= media[j].lastSequence
               && forall k :: 0 <= k < j ==> media[k].lastSequence < sequence;
      assert i == j;
    }
    if c.Embedded? {
      assert ("#" + c.stream)[1..] == c.stream;
    }
  }

  // ----- file rows

  lemma {:induction false} JoinAppend(names: seq<string>, name: string)
    requires forall i :: 0 <= i < |names| ==> names[i] != ""
    ensures Join(names, '/') == "" <==> names == []
    ensures Join(names + [name], '/') == if names == [] then name else Join(names, '/') + "/" + name
    decreases |names|
  {
    if |names| > 1 {
      JoinAppend(names[1..], name);
      assert (names + [name])[1..] == names[1..] + [name];
    } else if |names| == 1 {
      assert (names + [name])[1..] == [name];
    } else {
      assert names + [name] == [name];
    }
  }

  lemma {:induction false} PathNamesAreNames(id: string, rows: seq<DirectoryRow>, rank: string -> nat)
    requires Ranked(Resolved(rows), rank)
    ensures forall i :: 0 <= i < |ParentPath(id, Resolved(rows), rank)| ==> ParentPath(id, Resolved(rows), rank)[i] != ""
    decreases rank(id)
  {
    var found := Find(id, Resolved(rows));
    if found.Some? {
      var row := Resolved(rows)[found.value];
      if GoesUp(row) {
        PathNamesAreNames(row.parent.value, rows, rank);
      }
      forall i | 0 <= i < |row.names| ensures row.names[i] != "" {
        ComponentsAreNames(Split(TargetHalf(rows[found.value].defaultDir), {'\\'}), row.names[i]);
      }
    }
  }

  function DirectoryId(t: Tables, component: string): string {
    if component in t.components then t.components[component] else ""
  }

  /** A file row with a usable name and a cabinet becomes the entry whose path is
      the recursive path of its component's directory followed by the shown name. */
  lemma {:induction false} RowBecomesEntry(
    t: Tables, key: string, row: FileRow, rank: string -> nat, n: FileName, i: nat, c: Cabinet)
    requires Ranked(Resolved(t.directories), rank)
    requires ValidFileName(n) && Shown(n) != "" && row.fileName == PrintFileName(n)
    requires FirstCovering(t.media, row.sequence, i) && ValidCabinet(c) && t.media[i].cabinet == PrintCabinet(c)
    ensures var names := ParentPath(DirectoryId(t, row.component), Resolved(t.directories), rank);
            EntryOf(t, key, row) == Some(Entry(Join(names + [Shown(n)], '/'), row.size, key, c))
  {
    var id := DirectoryId(t, row.component);
    LeafIsShown(n);
    CabinetIsFirstCovering(t.media, row.sequence, i, c);
    ResolvesOnTrees(id, Resolved(t.directories), rank);
    PathNamesAreNames(id, t.directories, rank);
    JoinAppend(ParentPath(id, Resolved(t.directories), rank), Shown(n));
  }

  /** A file row is skipped exactly when its name shows nothing or no cabinet is
      named for its sequence number. */
  lemma {:induction false} RowIsSkippedIff(t: Tables, key: string, row: FileRow)
    ensures EntryOf(t, key, row).None? <==>
            || row.fileName in {"", "|"}
            || (forall i :: 0 <= i < |t.media| ==> t.media[i].lastSequence < row.sequence)
            || exists i: nat :: FirstCovering(t.media, row.sequence, i) && t.media[i].cabinet == ""
  {
    var m := Covering(t.media, row.sequence);
    if m.Some? {
      var j :| 0 <= j < |t.media| && t.media[j] == m.value && row.sequence <= t.media[j].lastSequence
               && forall k :: 0 <= k < j ==> t.media[k].lastSequence < row.sequence;
      assert FirstCovering(t.media, row.sequence, j);
      forall i: nat | FirstCovering(t.media, row.sequence, i) ensures i == j {
      }
    }
  }
}
