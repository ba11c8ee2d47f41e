/** Windows installer packages: directory resolution, cabinet grouping, and the
    account the extraction keeps of every file row. */
module Msi {

  import opened Wrappers
  import opened Text

  // ----- names

  /** The text around the first occurrence of a character. */
  function SplitOnce(s: string, c: char): (halves: Option<(string, string)>)
    ensures halves.Some? ==> s == halves.value.0 + [c] + halves.value.1 && c !in halves.value.0
    ensures halves.None? ==> c !in s
  {
    if s == "" then None
    else if s[0] == c then Some(("", s[1..]))
    else
      match SplitOnce(s[1..], c)
      case None => None
      case Some(rest) => Some(([s[0]] + rest.0, rest.1))
  }

  /** What follows the last bar, if there is one: the long form of a name. */
  function LongName(part: string): string
    decreases |part|
  {
    match SplitOnce(part, '|')
    case None => part
    case Some(halves) => LongName(halves.1)
  }

  /** The half before the first colon: the target, not the source. */
  function TargetHalf(defaultDir: string): string {
    match SplitOnce(defaultDir, ':')
    case None => defaultDir
    case Some(halves) => halves.0
  }

  /** The directory one part of a `DefaultDir` adds, if any. */
  function DirectoryName(part: string): seq<string> {
    var name := LongName(part);
    if name == "" || name == "." || name == "SourceDir" then [] else [name]
  }

  function DirectoryNames(parts: seq<string>): seq<string> {
    if parts == [] then [] else DirectoryName(parts[0]) + DirectoryNames(parts[1..])
  }

  /** The directories a `DefaultDir` adds. */
  function Components(defaultDir: string): seq<string> {
    DirectoryNames(Split(TargetHalf(defaultDir), {'\\'}))
  }

  lemma {:induction false} NamesFrom(parts: seq<string>, i: nat, before: seq<string>)
    requires i < |parts|
    ensures before + DirectoryNames(parts[i..]) == (before + DirectoryName(parts[i])) + DirectoryNames(parts[i + 1..])
  {
    assert parts[i..][0] == parts[i] && parts[i..][1..] == parts[i + 1..];
  }

  /** `target_dir_components`. */
  method TargetDirComponents(defaultDir: string) returns (components: seq<string>)
    ensures components == Components(defaultDir)
  {
    components := [];
    var parts := Split(TargetHalf(defaultDir), {'\\'});
    for i := 0 to |parts|
      invariant components + DirectoryNames(parts[i..]) == DirectoryNames(parts)
    {
      NamesFrom(parts, i, components);
      components := components + DirectoryName(parts[i]);
    }
    assert components + [] == components;
  }

  /** Every component is a name: not empty, not the parent's own directory and not
      the conventional root. */
  lemma {:induction false} ComponentsAreNames(parts: seq<string>, name: string)
    requires name in DirectoryNames(parts)
    ensures name != "" && name != "." && name != "SourceDir" && '|' !in name
    ensures exists part :: part in parts && LongName(part) == name
    decreases |parts|
  {
    if name in DirectoryName(parts[0]) {
      LongNameHasNoBar(parts[0]);
      assert parts[0] in parts;
    } else {
      ComponentsAreNames(parts[1..], name);
      var part :| part in parts[1..] && LongName(part) == name;
      assert part in parts;
    }
  }

  lemma {:induction false} LongNameHasNoBar(part: string)
    ensures '|' !in LongName(part)
    decreases |part|
  {
    match SplitOnce(part, '|')
    case None =>
    case Some(halves) => LongNameHasNoBar(halves.1);
  }

  /** `target_file_leaf`: the long half of `short|long` unless it is empty. */
  function FileLeaf(fileName: string): (leaf: Option<string>)
    ensures leaf.Some? ==> leaf.value != ""
    ensures leaf.None? <==> fileName == "" || fileName == "|"
  {
    var name := match SplitOnce(fileName, '|')
                case None => fileName
                case Some(halves) => if halves.1 != "" then halves.1 else halves.0;
    if name == "" then None else Some(name)
  }

  // ----- directories

  /** A row of the directory table ... */
  datatype DirectoryRow = DirectoryRow(id: string, parent: Option<string>, defaultDir: string)

  /** ... and the same with the names its `DefaultDir` adds. */
  datatype Row = Row(id: string, parent: Option<string>, names: seq<string>)

  function Resolved(rows: seq<DirectoryRow>): (resolved: seq<Row>)
    ensures |resolved| == |rows|
    ensures forall i :: 0 <= i < |rows| ==>
              resolved[i] == Row(rows[i].id, rows[i].parent, Components(rows[i].defaultDir))
  {
    seq(|rows|, i requires 0 <= i < |rows| => Row(rows[i].id, rows[i].parent, Components(rows[i].defaultDir)))
  }

  /** The first row with an identifier. */
  function Find(id: string, rows: seq<Row>): (i: Option<nat>)
    ensures i.Some? ==> i.value < |rows| && rows[i.value].id == id
    ensures i.None? ==> forall k :: 0 <= k < |rows| ==> rows[k].id != id
  {
    if rows == [] then None
    else if rows[0].id == id then Some(0)
    else
      match Find(id, rows[1..])
      case None => None
      case Some(k) => Some(k + 1)
  }

  /** The walk goes on to the parent unless it is missing, empty or the row
      itself. */
  predicate GoesUp(row: Row) {
    row.parent.Some? && row.parent.value != "" && row.parent.value != row.id
  }

  /** The levels met walking up, nearest first, within a number of hops. */
  function Levels(id: string, rows: seq<Row>, hops: nat): (levels: seq<seq<string>>)
    ensures |levels| <= hops
    decreases hops
  {
    if hops == 0 then []
    else
      match Find(id, rows)
      case None => []
      case Some(i) =>
        [rows[i].names] + if GoesUp(rows[i]) then Levels(rows[i].parent.value, rows, hops - 1) else []
  }

  /** The levels put together, outermost first. */
  function Outermost(levels: seq<seq<string>>): seq<string> {
    if levels == [] then [] else Outermost(levels[1..]) + levels[0]
  }

  lemma {:induction false} LevelsFound(id: string, rows: seq<Row>, hops: nat, i: nat)
    requires hops > 0 && Find(id, rows) == Some(i)
    ensures Levels(id, rows, hops) ==
            [rows[i].names] + if GoesUp(rows[i]) then Levels(rows[i].parent.value, rows, hops - 1) else []
  {
  }

  lemma {:induction false} OneLevelMore(levels: seq<seq<string>>, id: string, rows: seq<Row>, hops: nat, i: nat)
    requires hops > 0 && Find(id, rows) == Some(i)
    ensures levels + Levels(id, rows, hops) ==
            (levels + [rows[i].names]) + if GoesUp(rows[i]) then Levels(rows[i].parent.value, rows, hops - 1) else []
  {
    LevelsFound(id, rows, hops, i);
  }

  lemma {:induction false} FindFrom(id: string, rows: seq<Row>, n: nat)
    requires n < |rows| && rows[n].id == id && forall k :: 0 <= k < n ==> rows[k].id != id
    ensures Find(id, rows) == Some(n)
    decreases n
  {
    if n > 0 {
      FindFrom(id, rows[1..], n - 1);
    }
  }

  /** The search for a row by its identifier. */
  method FindRow(id: string, rows: seq<DirectoryRow>) returns (found: Option<nat>)
    ensures found == Find(id, Resolved(rows))
  {
    for i := 0 to |rows|
      invariant forall k :: 0 <= k < i ==> rows[k].id != id
    {
      if rows[i].id == id {
        FindFrom(id, Resolved(rows), i);
        return Some(i);
      }
    }
    return None;
  }

  /** The walk up the parents; it stops on every graph, cycles included. */
  method CollectLevels(id: string, rows: seq<DirectoryRow>) returns (levels: seq<seq<string>>)
    ensures levels == Levels(id, Resolved(rows), |rows| + 1)
  {
    levels := [];
    var current := id;
    var hops := 0;
    ghost var resolved := Resolved(rows);
    ghost var all := Levels(id, resolved, |rows| + 1);
    while hops < |rows| + 1
      invariant 0 <= hops <= |rows| + 1
      invariant levels + Levels(current, resolved, |rows| + 1 - hops) == all
      decreases |rows| + 1 - hops
    {
      var i := FindRow(current, rows);
      if i.None? {
        assert levels + [] == levels;
        return;
      }
      var names := TargetDirComponents(rows[i.value].defaultDir);
      var parent := rows[i.value].parent;
      assert resolved[i.value] == Row(rows[i.value].id, parent, names);
      OneLevelMore(levels, current, resolved, |rows| + 1 - hops, i.value);
      hops := hops + 1;
      levels := levels + [names];
      if parent.None? || parent.value == "" || parent.value == current {
        assert levels + [] == levels;
        return;
      }
      current := parent.value;
    }
    assert levels + [] == levels;
  }

  /** `resolve_directory_path`. */
  method ResolveDirectoryPath(id: string, rows: seq<DirectoryRow>) returns (path: string)
    ensures path == Join(Outermost(Levels(id, Resolved(rows), |rows| + 1)), '/')
  {
    var levels := CollectLevels(id, rows);
    var names := Concatenate(levels);
    path := Join(names, '/');
  }

  /** Reverses the levels and puts them together. */
  method Concatenate(levels: seq<seq<string>>) returns (names: seq<string>)
    ensures names == Outermost(levels)
  {
    names := [];
    var i := |levels|;
    while i > 0
      invariant 0 <= i <= |levels| && names == Outermost(levels[i..])
    {
      i := i - 1;
      assert levels[i..][1..] == levels[i + 1..] && levels[i..][0] == levels[i];
      names := names + levels[i];
    }
    assert levels[0..] == levels;
  }

  // ----- trees

  /** Parents rank below their children: the rows form a forest. */
  ghost predicate Ranked(rows: seq<Row>, rank: string -> nat) {
    forall i :: 0 <= i < |rows| && GoesUp(rows[i]) ==> rank(rows[i].parent.value) < rank(rows[i].id)
  }

  /** The path of a directory: that of its parent, then its own names. */
  ghost function ParentPath(id: string, rows: seq<Row>, rank: string -> nat): seq<string>
    requires Ranked(rows, rank)
    decreases rank(id)
  {
    match Find(id, rows)
    case None => []
    case Some(i) =>
      (if GoesUp(rows[i]) then ParentPath(rows[i].parent.value, rows, rank) else []) + rows[i].names
  }

  lemma {:induction false} SubsetOfRange(s: set<nat>, n: nat)
    requires forall x :: x in s ==> x < n
    ensures |s| <= n
  {
    if n > 0 {
      var rest := s - {n - 1};
      SubsetOfRange(rest, n - 1);
      assert n - 1 in s ==> s == rest + {n - 1};
      assert n - 1 !in s ==> s == rest;
    } else {
      assert s == {};
    }
  }

  lemma {:induction false} HopsLeft(passed: set<nat>, hops: nat, id: string, rows: seq<Row>, rank: string -> nat)
    requires |passed| + hops >= |rows| + 1 && PassedAbove(passed, id, rows, rank)
    ensures hops > 0
  {
    SubsetOfRange(passed, |rows|);
  }

  /** Rows already passed rank above the current one, so a walk that has hops for
      the others left reaches the root. */
  lemma {:induction false} EnoughHops(id: string, rows: seq<Row>, rank: string -> nat, hops: nat, passed: set<nat>)
    requires Ranked(rows, rank) && |passed| + hops >= |rows| + 1
    requires PassedAbove(passed, id, rows, rank)
    ensures Outermost(Levels(id, rows, hops)) == ParentPath(id, rows, rank)
    decreases hops
  {
    HopsLeft(passed, hops, id, rows, rank);
    var found := Find(id, rows);
    if found.None? {
      NoHop(id, rows, rank, hops);
    } else {
      if GoesUp(rows[found.value]) {
        var parent := rows[found.value].parent.value;
        OnePassedMore(id, parent, rows, rank, passed, found.value);
        EnoughHops(parent, rows, rank, hops - 1, passed + {found.value});
      }
      OneHop(id, rows, rank, hops, found.value);
    }
  }

  lemma {:induction false} NoHop(id: string, rows: seq<Row>, rank: string -> nat, hops: nat)
    requires Ranked(rows, rank) && Find(id, rows).None?
    ensures Outermost(Levels(id, rows, hops)) == ParentPath(id, rows, rank)
  {
  }

  lemma {:induction false} OneHop(id: string, rows: seq<Row>, rank: string -> nat, hops: nat, i: nat)
    requires Ranked(rows, rank) && hops > 0 && Find(id, rows) == Some(i)
    requires GoesUp(rows[i]) ==>
               Outermost(Levels(rows[i].parent.value, rows, hops - 1)) == ParentPath(rows[i].parent.value, rows, rank)
    ensures Outermost(Levels(id, rows, hops)) == ParentPath(id, rows, rank)
  {
    LevelsFound(id, rows, hops, i);
    OutermostFirst(rows[i].names, if GoesUp(rows[i]) then Levels(rows[i].parent.value, rows, hops - 1) else []);
  }

  ghost predicate PassedAbove(passed: set<nat>, id: string, rows: seq<Row>, rank: string -> nat) {
    forall k :: k in passed ==> k < |rows| && rank(rows[k].id) > rank(id)
  }

  lemma {:induction false} OnePassedMore(
    id: string, parent: string, rows: seq<Row>, rank: string -> nat, passed: set<nat>, i: nat)
    requires PassedAbove(passed, id, rows, rank) && i < |rows| && rows[i].id == id && rank(parent) < rank(id)
    ensures PassedAbove(passed + {i}, parent, rows, rank) && |passed + {i}| == |passed| + 1
  {
    assert i !in passed;
  }

  lemma {:induction false} OutermostFirst(names: seq<string>, levels: seq<seq<string>>)
    ensures Outermost([names] + levels) == Outermost(levels) + names
  {
    assert ([names] + levels)[1..] == levels;
  }

  /** On a forest, the bounded walk gives the recursive parent path. */
  lemma {:induction false} ResolvesOnTrees(id: string, rows: seq<Row>, rank: string -> nat)
    requires Ranked(rows, rank)
    ensures Outermost(Levels(id, rows, |rows| + 1)) == ParentPath(id, rows, rank)
  {
    EnoughHops(id, rows, rank, |rows| + 1, {});
  }

  // ----- the manifest

  datatype Cabinet = Embedded(stream: string) | External(name: string)

  datatype Entry = Entry(path: string, size: nat, key: string, cabinet: Cabinet)

  /** A file row: its key, if it has one, and what the tables make of it. */
  datatype FileRow = FileRow(key: Option<string>, component: string, fileName: string, size: nat, sequence: nat)

  datatype Media = Media(lastSequence: nat, cabinet: string)

  datatype Tables = Tables(directories: seq<DirectoryRow>, components: map<string, string>, media: seq<Media>)

  /** The first media row whose range covers a sequence number. */
  function Covering(media: seq<Media>, sequence: nat): (m: Option<Media>)
    ensures m.Some? ==>
              exists i :: 0 <= i < |media| && media[i] == m.value && sequence <= media[i].lastSequence
                          && forall k :: 0 <= k < i ==> media[k].lastSequence < sequence
    ensures m.None? ==> forall k :: 0 <= k < |media| ==> media[k].lastSequence < sequence
  {
    if media == [] then None
    else if sequence <= media[0].lastSequence then Some(media[0])
    else Covering(media[1..], sequence)
  }

  function CabinetOf(media: seq<Media>, sequence: nat): Option<Cabinet> {
    match Covering(media, sequence)
    case None => None
    case Some(m) =>
      if m.cabinet == "" then None
      else if m.cabinet[0] == '#' then Some(Embedded(m.cabinet[1..]))
      else Some(External(m.cabinet))
  }

  function DirectoryOf(t: Tables, component: string): string {
    var id := if component in t.components then t.components[component] else "";
    Join(Outermost(Levels(id, Resolved(t.directories), |t.directories| + 1)), '/')
  }

  /** The entry of a keyed file row, or nothing when the row is skipped. */
  function EntryOf(t: Tables, key: string, row: FileRow): Option<Entry> {
    match FileLeaf(row.fileName)
    case None => None
    case Some(leaf) =>
      var directory := DirectoryOf(t, row.component);
      var path := if directory == "" then leaf else directory + "/" + leaf;
      match CabinetOf(t.media, row.sequence)
      case None => None
      case Some(cabinet) => Some(Entry(path, row.size, key, cabinet))
  }

  type RowReader = (string, FileRow) -> Option<Entry>

  function Reader(t: Tables): RowReader {
    (key: string, row: FileRow) => EntryOf(t, key, row)
  }

  function Keyed(rows: seq<FileRow>): nat {
    if rows == [] then 0 else (if rows[0].key.Some? then 1 else 0) + Keyed(rows[1..])
  }

  function FromRow(row: FileRow, read: RowReader): (entries: seq<Entry>)
    ensures |entries| <= 1
  {
    if row.key.None? then []
    else
      match read(row.key.value, row)
      case None => []
      case Some(e) => [e]
  }

  /** The entries of the rows that are not skipped, in order. */
  function FromRows(rows: seq<FileRow>, read: RowReader): seq<Entry> {
    if rows == [] then [] else FromRow(rows[0], read) + FromRows(rows[1..], read)
  }

  lemma {:induction false} RowsFrom(rows: seq<FileRow>, i: nat, read: RowReader, entries: seq<Entry>)
    requires i < |rows|
    ensures entries + FromRows(rows[i..], read) == (entries + FromRow(rows[i], read)) + FromRows(rows[i + 1..], read)
    ensures Keyed(rows[i..]) == (if rows[i].key.Some? then 1 else 0) + Keyed(rows[i + 1..])
  {
    assert rows[i..][0] == rows[i] && rows[i..][1..] == rows[i + 1..];
  }

  /** The loop over the file rows: every keyed row becomes an entry or is counted
      as skipped. */
  method CollectEntries(rows: seq<FileRow>, read: RowReader) returns (entries: seq<Entry>, skips: nat)
    ensures entries == FromRows(rows, read) && |entries| + skips == Keyed(rows)
  {
    entries, skips := [], 0;
    for i := 0 to |rows|
      invariant entries + FromRows(rows[i..], read) == FromRows(rows, read)
      invariant |entries| + skips + Keyed(rows[i..]) == Keyed(rows)
    {
      RowsFrom(rows, i, read, entries);
      var found := FromRow(rows[i], read);
      if rows[i].key.Some? && found == [] {
        skips := skips + 1;
      }
      entries := entries + found;
    }
    assert entries + [] == entries;
  }

  /** `read_manifest`. */
  method ReadManifest(t: Tables, rows: seq<FileRow>) returns (entries: seq<Entry>, skips: nat)
    ensures entries == FromRows(rows, Reader(t)) && |entries| + skips == Keyed(rows)
  {
    entries, skips := CollectEntries(rows, Reader(t));
  }

  // ----- cabinet groups

  datatype Group = Group(stream: string, entries: seq<Entry>)

  predicate InStream(e: Entry, stream: string) {
    e.cabinet == Embedded(stream)
  }

  /** The entries of one cabinet stream, in manifest order. */
  function InOrder(entries: seq<Entry>, stream: string): seq<Entry> {
    if entries == [] then []
    else
      var n := |entries| - 1;
      InOrder(entries[..n], stream) + if InStream(entries[n], stream) then [entries[n]] else []
  }

  /** The cabinet streams in the order in which they are first seen. */
  function FirstSeen(entries: seq<Entry>): seq<string> {
    if entries == [] then []
    else
      var n := |entries| - 1;
      var seen := FirstSeen(entries[..n]);
      if entries[n].cabinet.Embedded? && entries[n].cabinet.stream !in seen then seen + [entries[n].cabinet.stream]
      else seen
  }

  function ExternalCount(entries: seq<Entry>): nat {
    if entries == [] then 0
    else
      var n := |entries| - 1;
      ExternalCount(entries[..n]) + if entries[n].cabinet.External? then 1 else 0
  }

  /** The groups are the streams as first seen, each with its entries in order. */
  ghost predicate Grouped(groups: seq<Group>, entries: seq<Entry>) {
    && |groups| == |FirstSeen(entries)|
    && forall k :: 0 <= k < |groups| ==>
         groups[k].stream == FirstSeen(entries)[k] && groups[k].entries == InOrder(entries, groups[k].stream)
  }

  function Members(groups: seq<Group>): nat {
    if groups == [] then 0 else |groups[0].entries| + Members(groups[1..])
  }

  predicate Distinct(s: seq<string>) {
    forall i, j :: 0 <= i < j < |s| ==> s[i] != s[j]
  }

  lemma {:induction false} FirstSeenIsDistinct(entries: seq<Entry>)
    ensures Distinct(FirstSeen(entries))
    ensures forall e :: e in entries && e.cabinet.Embedded? ==> e.cabinet.stream in FirstSeen(entries)
    decreases |entries|
  {
    if entries != [] {
      var n := |entries| - 1;
      FirstSeenIsDistinct(entries[..n]);
      assert entries == entries[..n] + [entries[n]];
    }
  }

  /** Where each stream's group stands: the hash map of the program. */
  ghost predicate Indexed(index: map<string, nat>, groups: seq<Group>) {
    && (forall s :: s in index ==> index[s] < |groups| && groups[index[s]].stream == s)
    && (forall k :: 0 <= k < |groups| ==> groups[k].stream in index && index[groups[k].stream] == k)
  }

  lemma {:induction false} MembersAppend(groups: seq<Group>, g: Group)
    ensures Members(groups + [g]) == Members(groups) + |g.entries|
    decreases |groups|
  {
    if groups == [] {
      assert (groups + [g])[1..] == [];
    } else {
      assert (groups + [g])[1..] == groups[1..] + [g];
      MembersAppend(groups[1..], g);
    }
  }

  lemma {:induction false} MembersUpdate(groups: seq<Group>, k: nat, e: Entry)
    requires k < |groups|
    ensures Members(groups[k := groups[k].(entries := groups[k].entries + [e])]) == Members(groups) + 1
    decreases |groups|
  {
    var after := groups[k := groups[k].(entries := groups[k].entries + [e])];
    if k == 0 {
      assert after[1..] == groups[1..];
    } else {
      assert after[1..] == groups[1..][k - 1 := groups[1..][k - 1].(entries := groups[1..][k - 1].entries + [e])];
      MembersUpdate(groups[1..], k - 1, e);
    }
  }

  lemma {:induction false} NotSeenNotIn(entries: seq<Entry>, stream: string)
    requires stream !in FirstSeen(entries)
    ensures InOrder(entries, stream) == []
    decreases |entries|
  {
    if entries != [] {
      NotSeenNotIn(entries[..|entries| - 1], stream);
    }
  }

  /** Adding an entry to its group keeps the groups right. */
  lemma {:induction false} GroupOneMore(groups: seq<Group>, entries: seq<Entry>, e: Entry, k: nat)
    requires Grouped(groups, entries) && k < |groups| && InStream(e, groups[k].stream)
    ensures Grouped(groups[k := groups[k].(entries := groups[k].entries + [e])], entries + [e])
  {
    var all := entries + [e];
    assert all[..|all| - 1] == entries;
    assert groups[k].stream == FirstSeen(entries)[k];
    FirstSeenIsDistinct(entries);
    var after := groups[k := groups[k].(entries := groups[k].entries + [e])];
    forall i | 0 <= i < |after|
      ensures after[i].stream == FirstSeen(all)[i] && after[i].entries == InOrder(all, after[i].stream)
    {
      assert i != k ==> groups[i].stream != groups[k].stream;
    }
  }

  /** Opening a group for a stream not seen before. */
  lemma {:induction false} GroupOpened(groups: seq<Group>, entries: seq<Entry>, e: Entry)
    requires Grouped(groups, entries) && e.cabinet.Embedded? && e.cabinet.stream !in FirstSeen(entries)
    ensures Grouped(groups + [Group(e.cabinet.stream, [e])], entries + [e])
  {
    var all, stream := entries + [e], e.cabinet.stream;
    assert all[..|all| - 1] == entries;
    NotSeenNotIn(entries, stream);
    var after := groups + [Group(stream, [e])];
    forall i | 0 <= i < |after|
      ensures after[i].stream == FirstSeen(all)[i] && after[i].entries == InOrder(all, after[i].stream)
    {
      if i < |groups| {
        assert groups[i].stream == FirstSeen(entries)[i];
      }
    }
  }

  lemma {:induction false} GroupExternal(groups: seq<Group>, entries: seq<Entry>, e: Entry)
    requires Grouped(groups, entries) && e.cabinet.External?
    ensures Grouped(groups, entries + [e])
  {
    assert (entries + [e])[..|entries|] == entries;
  }

  /** What the grouping loop keeps. */
  ghost predicate Sound(groups: seq<Group>, index: map<string, nat>, skipped: nat, entries: seq<Entry>) {
    && Grouped(groups, entries) && Indexed(index, groups)
    && skipped == ExternalCount(entries) && Members(groups) + skipped == |entries|
  }

  lemma {:induction false} SoundExternal(groups: seq<Group>, index: map<string, nat>, skipped: nat, entries: seq<Entry>, e: Entry)
    requires Sound(groups, index, skipped, entries) && e.cabinet.External?
    ensures Sound(groups, index, skipped + 1, entries + [e])
  {
    GroupExternal(groups, entries, e);
    assert (entries + [e])[..|entries|] == entries;
  }

  lemma {:induction false} SoundAdded(groups: seq<Group>, index: map<string, nat>, skipped: nat, entries: seq<Entry>, e: Entry)
    requires Sound(groups, index, skipped, entries) && e.cabinet.Embedded? && e.cabinet.stream in index
    ensures var k := index[e.cabinet.stream];
            Sound(groups[k := groups[k].(entries := groups[k].entries + [e])], index, skipped, entries + [e])
  {
    var k := index[e.cabinet.stream];
    GroupOneMore(groups, entries, e, k);
    MembersUpdate(groups, k, e);
    assert (entries + [e])[..|entries|] == entries;
  }

  lemma {:induction false} SoundOpened(groups: seq<Group>, index: map<string, nat>, skipped: nat, entries: seq<Entry>, e: Entry)
    requires Sound(groups, index, skipped, entries) && e.cabinet.Embedded? && e.cabinet.stream !in index
    ensures Sound(groups + [Group(e.cabinet.stream, [e])], index[e.cabinet.stream := |groups|], skipped, entries + [e])
  {
    SeenIsIndexed(index, groups, entries);
    GroupOpened(groups, entries, e);
    MembersAppend(groups, Group(e.cabinet.stream, [e]));
    assert (entries + [e])[..|entries|] == entries;
  }

  lemma {:induction false} SeenIsIndexed(index: map<string, nat>, groups: seq<Group>, entries: seq<Entry>)
    requires Indexed(index, groups) && Grouped(groups, entries)
    ensures forall stream :: stream in FirstSeen(entries) ==> stream in index
  {
    forall stream | stream in FirstSeen(entries) ensures stream in index {
      var k :| 0 <= k < |FirstSeen(entries)| && FirstSeen(entries)[k] == stream;
      assert groups[k].stream == stream;
    }
  }

  /** The grouping loop.  Entries in external cabinets are skipped; every other
      entry ends up in one group. */
  method GroupEntries(entries: seq<Entry>) returns (groups: seq<Group>, skipped: nat)
    ensures Grouped(groups, entries) && skipped == ExternalCount(entries)
    ensures Members(groups) + skipped == |entries|
  {
    groups, skipped := [], 0;
    var index: map<string, nat> := map[];
    for i := 0 to |entries|
      invariant Sound(groups, index, skipped, entries[..i])
    {
      var e := entries[i];
      assert entries[..i + 1] == entries[..i] + [e];
      if e.cabinet.External? {
        SoundExternal(groups, index, skipped, entries[..i], e);
        skipped := skipped + 1;
        continue;
      }
      var stream := e.cabinet.stream;
      if stream in index {
        SoundAdded(groups, index, skipped, entries[..i], e);
        var k := index[stream];
        groups := groups[k := groups[k].(entries := groups[k].entries + [e])];
      } else {
        SoundOpened(groups, index, skipped, entries[..i], e);
        index := index[stream := |groups|];
        groups := groups + [Group(stream, [e])];
      }
    }
    assert entries[..|entries|] == entries;
  }

  // ----- sums over groups

  function Weight(entries: seq<Entry>, f: Entry -> nat): nat {
    if entries == [] then 0
    else
      var n := |entries| - 1;
      Weight(entries[..n], f) + f(entries[n])
  }

  function GroupsWeight(groups: seq<Group>, f: Entry -> nat): nat {
    if groups == [] then 0 else Weight(groups[0].entries, f) + GroupsWeight(groups[1..], f)
  }

  lemma {:induction false} GroupsWeightAppend(groups: seq<Group>, g: Group, f: Entry -> nat)
    ensures GroupsWeight(groups + [g], f) == GroupsWeight(groups, f) + Weight(g.entries, f)
    decreases |groups|
  {
    if groups == [] {
      assert (groups + [g])[1..] == [];
    } else {
      assert (groups + [g])[1..] == groups[1..] + [g];
      GroupsWeightAppend(groups[1..], g, f);
    }
  }

  lemma {:induction false} GroupsWeightUpdate(groups: seq<Group>, k: nat, g: Group, f: Entry -> nat)
    requires k < |groups|
    ensures GroupsWeight(groups[k := g], f) + Weight(groups[k].entries, f) == GroupsWeight(groups, f) + Weight(g.entries, f)
    decreases |groups|
  {
    if k == 0 {
      assert groups[0 := g][1..] == groups[1..];
    } else {
      assert groups[k := g][1..] == groups[1..][k - 1 := g];
      GroupsWeightUpdate(groups[1..], k - 1, g, f);
    }
  }

  lemma {:induction false} WeightAppend(entries: seq<Entry>, e: Entry, f: Entry -> nat)
    ensures Weight(entries + [e], f) == Weight(entries, f) + f(e)
  {
    assert (entries + [e])[..|entries|] == entries;
  }

  /** The groups before the last entry, when its stream had been seen. */
  lemma {:induction false} WithoutLast(groups: seq<Group>, entries: seq<Entry>, e: Entry, k: nat)
    requires Grouped(groups, entries + [e]) && k < |FirstSeen(entries)|
    requires e.cabinet == Embedded(FirstSeen(entries)[k])
    ensures k < |groups|
    ensures var g := Group(groups[k].stream, InOrder(entries, groups[k].stream));
            groups[k].entries == g.entries + [e] && Grouped(groups[k := g], entries)
  {
    var all := entries + [e];
    assert all[..|all| - 1] == entries && all[|all| - 1] == e;
    assert FirstSeen(all) == FirstSeen(entries);
    FirstSeenIsDistinct(entries);
    var g := Group(groups[k].stream, InOrder(entries, groups[k].stream));
    forall i | 0 <= i < |groups|
      ensures groups[k := g][i].stream == FirstSeen(entries)[i]
      ensures groups[k := g][i].entries == InOrder(entries, groups[k := g][i].stream)
    {
      assert i != k ==> FirstSeen(entries)[i] != FirstSeen(entries)[k];
    }
  }

  /** The groups before the last entry, when it opened a new one. */
  lemma {:induction false} WithoutNewest(groups: seq<Group>, entries: seq<Entry>, e: Entry)
    requires Grouped(groups, entries + [e]) && e.cabinet.Embedded? && e.cabinet.stream !in FirstSeen(entries)
    ensures groups != [] && groups[|groups| - 1].entries == [e] && Grouped(groups[..|groups| - 1], entries)
  {
    var all, n := entries + [e], |groups| - 1;
    assert all[..|all| - 1] == entries && all[|all| - 1] == e;
    assert FirstSeen(all) == FirstSeen(entries) + [e.cabinet.stream];
    NotSeenNotIn(entries, e.cabinet.stream);
    forall i | 0 <= i < n
      ensures groups[i].stream == FirstSeen(entries)[i] && groups[i].entries == InOrder(entries, groups[i].stream)
    {
      assert FirstSeen(all)[i] == FirstSeen(entries)[i];
    }
  }

  lemma {:induction false} WithoutExternal(groups: seq<Group>, entries: seq<Entry>, e: Entry)
    requires Grouped(groups, entries + [e]) && e.cabinet.External?
    ensures Grouped(groups, entries)
  {
    assert (entries + [e])[..|entries|] == entries;
  }

  /** A sum over the groups is the sum over the entries. */
  lemma {:induction false} GroupedWeight(groups: seq<Group>, entries: seq<Entry>, f: Entry -> nat)
    requires Grouped(groups, entries) && forall e: Entry :: e.cabinet.External? ==> f(e) == 0
    ensures GroupsWeight(groups, f) == Weight(entries, f)
    decreases |entries|
  {
    if entries != [] {
      var n := |entries| - 1;
      var front, e := entries[..n], entries[n];
      assert entries == front + [e];
      if e.cabinet.External? {
        WithoutExternal(groups, front, e);
        GroupedWeight(groups, front, f);
      } else if e.cabinet.stream in FirstSeen(front) {
        var k :| 0 <= k < |FirstSeen(front)| && FirstSeen(front)[k] == e.cabinet.stream;
        WithoutLast(groups, front, e, k);
        var g := Group(groups[k].stream, InOrder(front, groups[k].stream));
        GroupedWeight(groups[k := g], front, f);
        GroupsWeightUpdate(groups, k, g, f);
        WeightAppend(g.entries, e, f);
      } else {
        WithoutNewest(groups, front, e);
        var m := |groups| - 1;
        GroupedWeight(groups[..m], front, f);
        GroupsWeightAppend(groups[..m], groups[m], f);
        assert groups == groups[..m] + [groups[m]];
        WeightAppend([], e, f);
        assert [] + [e] == [e];
      }
    }
  }

  // ----- extraction

  /** What happens to an entry that its cabinet holds. */
  datatype Step = Written(bytes: nat) | Skipped | Fails(error: string)

  /** An installer and a policy, as far as counting goes: which streams exist
      and can be opened, which keys they hold, and how each entry fares. */
  datatype World = World(
    hasStream: string -> bool,
    opens: string -> bool,
    holds: (string, string) -> bool,
    fares: Entry -> Step)

  /** How an entry ends up: external, missing and refused entries are skipped. */
  function Fate(w: World, e: Entry): Step {
    match e.cabinet
    case External(_) => Skipped
    case Embedded(stream) => if w.hasStream(stream) && w.holds(stream, e.key) then w.fares(e) else Skipped
  }

  /** One for every entry that is written. */
  function Counts(w: World): Entry -> nat {
    (e: Entry) => if Fate(w, e).Written? then 1 else 0
  }

  /** The bytes written for an entry. */
  function Sizes(w: World): Entry -> nat {
    (e: Entry) => match Fate(w, e) case Written(bytes) => bytes case Skipped => 0 case Fails(_) => 0
  }

  datatype Report = Report(written: nat, skipped: nat, bytes: nat)

  predicate AllIn(group: Group) {
    forall i :: 0 <= i < |group.entries| ==> group.entries[i].cabinet == Embedded(group.stream)
  }

  lemma {:induction false} InOrderIsIn(entries: seq<Entry>, stream: string)
    ensures AllIn(Group(stream, InOrder(entries, stream)))
    decreases |entries|
  {
    if entries != [] {
      InOrderIsIn(entries[..|entries| - 1], stream);
    }
  }

  /** The report counts the first entries of a group after those before it. */
  ghost predicate Accounts(w: World, before: Report, report: Report, entries: seq<Entry>) {
    && report.written == before.written + Weight(entries, Counts(w))
    && report.bytes == before.bytes + Weight(entries, Sizes(w))
    && report.written + report.skipped == before.written + before.skipped + |entries|
  }

  /** The report with one more entry written or skipped. */
  function Entered(report: Report, step: Step): Report {
    if step.Written? then Report(report.written + 1, report.skipped, report.bytes + step.bytes)
    else report.(skipped := report.skipped + 1)
  }

  lemma {:induction false} AccountsOneMore(w: World, before: Report, report: Report, entries: seq<Entry>, e: Entry)
    requires Accounts(w, before, report, entries) && !Fate(w, e).Fails?
    ensures Accounts(w, before, Entered(report, Fate(w, e)), entries + [e])
  {
    WeightAppend(entries, e, Counts(w));
    WeightAppend(entries, e, Sizes(w));
  }

  /** The entry does not stop the extraction. */
  predicate Passes(w: World, e: Entry) {
    && !Fate(w, e).Fails?
    && (e.cabinet.Embedded? && w.hasStream(e.cabinet.stream) ==> w.opens(e.cabinet.stream))
  }

  predicate AllPass(w: World, entries: seq<Entry>) {
    forall i :: 0 <= i < |entries| ==> Passes(w, entries[i])
  }

  /** One cabinet group. */
  method ExtractGroup(w: World, group: Group, before: Report) returns (r: Result<Report, string>)
    requires AllIn(group) && group.entries != []
    ensures r.Ok? ==> Accounts(w, before, r.value, group.entries)
    ensures r.Ok? <==> AllPass(w, group.entries)
  {
    var report := before;
    var present := w.hasStream(group.stream);
    if present && !w.opens(group.stream) {
      assert !Passes(w, group.entries[0]);
      return Err("open cabinet");
    }
    for i := 0 to |group.entries|
      invariant Accounts(w, before, report, group.entries[..i])
      invariant forall k :: 0 <= k < i ==> Passes(w, group.entries[k])
    {
      var e := group.entries[i];
      assert group.entries[..i + 1] == group.entries[..i] + [e];
      assert e.cabinet == Embedded(group.stream);
      ghost var last := report;
      if !present || !w.holds(group.stream, e.key) {
        report := report.(skipped := report.skipped + 1);
      } else {
        match w.fares(e)
        case Fails(error) => assert !Passes(w, e); return Err(error);
        case Skipped => report := report.(skipped := report.skipped + 1);
        case Written(bytes) => report := Report(report.written + 1, report.skipped, report.bytes + bytes);
      }
      AccountsOneMore(w, before, last, group.entries[..i], e);
    }
    assert group.entries[..|group.entries|] == group.entries;
    return Ok(report);
  }

  /** The groups up to `n` stop the extraction nowhere. */
  ghost predicate GroupsPass(w: World, groups: seq<Group>, n: nat)
    requires n <= |groups|
  {
    forall k :: 0 <= k < n ==> AllPass(w, groups[k].entries)
  }

  lemma {:induction false} InOrderMembers(entries: seq<Entry>, stream: string, e: Entry)
    ensures e in InOrder(entries, stream) <==> e in entries && InStream(e, stream)
    decreases |entries|
  {
    if entries != [] {
      var n := |entries| - 1;
      InOrderMembers(entries[..n], stream, e);
      assert entries == entries[..n] + [entries[n]];
    }
  }

  lemma {:induction false} SeenHasEntry(entries: seq<Entry>, stream: string)
    requires stream in FirstSeen(entries)
    ensures InOrder(entries, stream) != []
    decreases |entries|
  {
    var n := |entries| - 1;
    if stream in FirstSeen(entries[..n]) {
      SeenHasEntry(entries[..n], stream);
    }
  }

  /** The groups and the entries stop the extraction alike. */
  lemma {:induction false} PassAlike(w: World, groups: seq<Group>, entries: seq<Entry>)
    requires Grouped(groups, entries)
    ensures GroupsPass(w, groups, |groups|) <==> AllPass(w, entries)
  {
    if GroupsPass(w, groups, |groups|) {
      forall i | 0 <= i < |entries| ensures Passes(w, entries[i]) {
        var e := entries[i];
        if e.cabinet.Embedded? {
          FirstSeenIsDistinct(entries);
          assert e in entries;
          var k :| 0 <= k < |FirstSeen(entries)| && FirstSeen(entries)[k] == e.cabinet.stream;
          InOrderMembers(entries, e.cabinet.stream, e);
          assert e in groups[k].entries && AllPass(w, groups[k].entries);
        }
      }
    }
    if AllPass(w, entries) {
      forall k, j | 0 <= k < |groups| && 0 <= j < |groups[k].entries| ensures Passes(w, groups[k].entries[j]) {
        InOrderMembers(entries, groups[k].stream, groups[k].entries[j]);
        assert groups[k].entries[j] in entries;
      }
    }
  }

  /** `extract_msi_inner` succeeds exactly when no entry of the manifest stops it.
      Then the written entries and their bytes are those of the manifest that fare
      so, and every file row with a key has been either written or skipped, once. */
  method Extract(w: World, t: Tables, rows: seq<FileRow>) returns (r: Result<Report, string>)
    ensures r.Ok? <==> AllPass(w, FromRows(rows, Reader(t)))
    ensures r.Ok? ==>
              && r.value.written == Weight(FromRows(rows, Reader(t)), Counts(w))
              && r.value.bytes == Weight(FromRows(rows, Reader(t)), Sizes(w))
              && r.value.written + r.value.skipped == Keyed(rows)
  {
    var entries, manifestSkips := ReadManifest(t, rows);
    var groups, external := GroupEntries(entries);
    var report := Report(0, manifestSkips + external, 0);
    GroupedWeight(groups, entries, Counts(w));
    GroupedWeight(groups, entries, Sizes(w));
    PassAlike(w, groups, entries);
    for i := 0 to |groups|
      invariant report.written + GroupsWeight(groups[i..], Counts(w)) == Weight(entries, Counts(w))
      invariant report.bytes + GroupsWeight(groups[i..], Sizes(w)) == Weight(entries, Sizes(w))
      invariant report.written + report.skipped + Members(groups[i..]) == Keyed(rows)
      invariant GroupsPass(w, groups, i)
    {
      assert groups[i..][0] == groups[i] && groups[i..][1..] == groups[i + 1..];
      InOrderIsIn(entries, groups[i].stream);
      SeenHasEntry(entries, groups[i].stream);
      assert groups[i] == Group(groups[i].stream, InOrder(entries, groups[i].stream));
      report :- ExtractGroup(w, groups[i], report);
    }
    return Ok(report);
  }
}
