/** `AtomicOutputFile` as the object one writer holds, and the copy loop that
    uses it.  Each method is the sequence of machine steps it performs when
    nobody interferes; `AtomicPublish` covers every interleaving of them. */
module AtomicFile {
  import opened Wrappers
  import opened AtomicPublish

  const MAX_TEMP_ATTEMPTS: nat := 100

  /** The directory entries and file bytes of one volume. */
  class Store {
    var names: map<Path, Inode>
    var data: map<Inode, string>

    /** The entries after each call so far, as a crash would leave them. */
    ghost var seen: seq<map<Path, Inode>>

    constructor (names: map<Path, Inode>, data: map<Inode, string>)
      ensures this.names == names && this.data == data && seen == []
    {
      this.names, this.data, seen := names, data, [];
    }

    /** One call that changes the entries. */
    method Relink(names: map<Path, Inode>)
      modifies this`names, this`seen
      ensures this.names == names && seen == old(seen) + [names]
    {
      this.names := names;
      seen := seen + [names];
    }
  }

  class AtomicOutputFile {
    const store: Store
    const final: string
    const temp: Path
    const inode: Inode
    var open: bool
    var committed: bool

    constructor (store: Store, final: string, temp: Path, inode: Inode)
      ensures this.store == store && this.final == final && this.temp == temp && this.inode == inode
      ensures open && !committed
    {
      this.store, this.final, this.temp, this.inode := store, final, temp, inode;
      open, committed := true, false;
    }

    /** The temporary is on disk and no other entry leads to its bytes. */
    ghost predicate Holding()
      reads this, store
    {
      && !committed && temp.Temp?
      && temp in store.names && store.names[temp] == inode && inode in store.data
      && forall p :: p in store.names && store.names[p] == inode ==> p == temp
    }

    /** The world as the machine sees it, with this writer alone in it. */
    ghost function World(): State
      requires inode in store.data
      reads this, store
    {
      var phase := if open then Writing else if committed then Finished else Closed;
      State(store.names, store.data, map[0 := Writer(final, temp, inode, store.data[inode], phase, committed)])
    }

    method Write(bytes: string)
      requires Holding() && open
      modifies store
      ensures Holding() && open
      ensures World() == Apply(old(World()), AtomicPublish.Write(0, bytes))
    {
      store.data := store.data[inode := store.data[inode] + bytes];
    }

    /** Renames over the destination: it is never absent on the way. */
    method CommitWithAtomicReplace()
      requires Holding() && open
      modifies this, store
      ensures var closed := Apply(old(World()), Close(0));
              inode in store.data && World() == Apply(closed, RenameReplace(0))
      ensures store.seen == old(store.seen) + [store.names]
    {
      open := false;
      store.Relink((store.names - {temp})[Final(final) := inode]);
      committed := true;
    }

    /** Clears the destination first when replacing, and refuses an existing
        one otherwise. */
    method CommitWithReplace(replace: bool) returns (ok: bool)
      requires Holding() && open
      modifies this, store
      ensures inode in store.data && store.data == old(store.data) && !open
      ensures ok <==> replace || Final(final) !in old(store.names)
      ensures ok ==> committed && store.names == (old(store.names) - {temp})[Final(final) := inode]
      ensures var closed := Apply(old(World()), Close(0));
              if replace then ok && World() == Apply(Apply(closed, Clear(0)), RenameCleared(0))
              else if Final(final) in closed.names then !ok && Holding() && store.names == old(store.names)
              else ok && World() == Apply(closed, RenameExclusive(0))
      ensures store.seen == old(store.seen) + if replace then [old(store.names) - {Final(final)}, store.names]
                                              else if ok then [store.names] else []
    {
      open := false;
      if replace {
        store.Relink(store.names - {Final(final)});
      } else if Final(final) in store.names {
        return false;
      }
      store.Relink((store.names - {temp})[Final(final) := inode]);
      committed := true;
      ok := true;
    }

    /** Removes the temporary unless it was committed. */
    method Drop()
      requires committed || Holding()
      modifies this`open, store
      ensures committed ==> store.names == old(store.names)
      ensures !committed ==> store.names == old(store.names) - {temp} && !open
      ensures store.data == old(store.data)
    {
      if !committed {
        open := false;
        store.Relink(store.names - {temp});
      }
    }
  }

  /** `AtomicOutputFile::create`: claims the first free name of a hundred. */
  method Create(store: Store, final: string, pid: nat, stamp: nat, inode: Inode) returns (r: Outcome<AtomicOutputFile>)
    requires inode !in store.data
    requires forall p :: p in store.names ==> store.names[p] in store.data
    modifies store
    ensures r.Failure? ==> store.names == old(store.names) && store.data == old(store.data)
    ensures r.Failure? ==>
              forall a :: 0 <= a < MAX_TEMP_ATTEMPTS ==> Temp(final, pid, stamp, a) in store.names
    ensures r.Success? ==>
              && fresh(r.value) && r.value.store == store && r.value.final == final && r.value.inode == inode
              && r.value.temp !in old(store.names)
              && store.names == old(store.names)[r.value.temp := inode]
              && store.data == old(store.data)[inode := ""]
              && r.value.Holding() && r.value.open
  {
    var attempt := 0;
    while attempt < MAX_TEMP_ATTEMPTS
      invariant attempt <= MAX_TEMP_ATTEMPTS
      invariant store.names == old(store.names) && store.data == old(store.data)
      invariant forall a :: 0 <= a < attempt ==> Temp(final, pid, stamp, a) in store.names
    {
      var temp := Temp(final, pid, stamp, attempt);
      if temp !in store.names {
        store.Relink(store.names[temp := inode]);
        store.data := store.data[inode := ""];
        var file := new AtomicOutputFile(store, final, temp, inode);
        return Success(file);
      }
      attempt := attempt + 1;
    }
    return Failure;
  }

  /** What the entry reader returns next: bytes, the end (no bytes), or an
      error, which stands for a cancelled job as well. */
  datatype Chunk = Data(bytes: string) | ReadError

  /** The bytes up to the end of the entry, if it is reached without error. */
  function Contents(chunks: seq<Chunk>): Outcome<string>
    decreases |chunks|
  {
    if chunks == [] || chunks[0].ReadError? then Failure
    else if chunks[0].bytes == "" then Success("")
    else Prepended(chunks[0].bytes, Contents(chunks[1..]))
  }

  function Prepended(done: string, rest: Outcome<string>): Outcome<string> {
    match rest
    case Failure => Failure
    case Success(more) => Success(done + more)
  }

  lemma {:induction false} PrependedNothing(rest: Outcome<string>)
    ensures Prepended("", rest) == rest
  {
    if rest.Success? {
      assert "" + rest.value == rest.value;
    }
  }

  lemma {:induction false} PrependedTwice(a: string, b: string, rest: Outcome<string>)
    ensures Prepended(a, Prepended(b, rest)) == Prepended(a + b, rest)
  {
    if rest.Success? {
      assert a + (b + rest.value) == (a + b) + rest.value;
    }
  }

  /** The read loop of `copy_file_entry`. */
  method CopyChunks(output: AtomicOutputFile, chunks: seq<Chunk>) returns (ok: bool, written: nat)
    requires output.Holding() && output.open && output.store.data[output.inode] == ""
    modifies output.store
    ensures output.Holding() && output.open && output.store.names == old(output.store.names)
    ensures output.store.data == old(output.store.data)[output.inode := output.store.data[output.inode]]
    ensures ok == Contents(chunks).Success?
    ensures ok ==> output.store.data[output.inode] == Contents(chunks).value && written == |Contents(chunks).value|
  {
    var store, inode := output.store, output.inode;
    ghost var data := store.data;
    written := 0;
    var i := 0;
    assert chunks[0..] == chunks;
    PrependedNothing(Contents(chunks));
    while true
      invariant i <= |chunks| && output.Holding()
      invariant store.names == old(store.names)
      invariant store.data == data[inode := store.data[inode]] && written == |store.data[inode]|
      invariant Contents(chunks) == Prepended(store.data[inode], Contents(chunks[i..]))
      decreases |chunks| - i
    {
      if i == |chunks| || chunks[i].ReadError? {
        return false, written;
      }
      if chunks[i].bytes == "" {
        break;
      }
      PrependedTwice(store.data[inode], chunks[i].bytes, Contents(chunks[i + 1..]));
      assert chunks[i..][1..] == chunks[i + 1..];
      output.Write(chunks[i].bytes);
      written := written + |chunks[i].bytes|;
      i := i + 1;
    }
    assert store.data[inode] + "" == store.data[inode];
    return true, written;
  }

  /** `copy_file_entry`: the destination receives the whole entry or nothing
      happens at all. */
  method CopyFileEntry(store: Store, final: string, replace: bool, chunks: seq<Chunk>, pid: nat, stamp: nat, inode: Inode)
    returns (r: Outcome<nat>)
    requires inode !in store.data
    requires forall p :: p in store.names ==> store.names[p] in store.data
    modifies store
    ensures r.Success? ==>
              && Contents(chunks).Success?
              && (replace || Final(final) !in old(store.names))
              && store.names == old(store.names)[Final(final) := inode]
              && store.data == old(store.data)[inode := Contents(chunks).value]
              && r.value == |Contents(chunks).value|
    ensures r.Failure? ==>
              && store.names == old(store.names)
              && forall i :: i in old(store.data) ==> i in store.data && store.data[i] == old(store.data)[i]
    ensures r.Failure? ==>
              || Contents(chunks).Failure?
              || (!replace && Final(final) in old(store.names))
              || (forall a :: 0 <= a < MAX_TEMP_ATTEMPTS ==> Temp(final, pid, stamp, a) in old(store.names))
  {
    ghost var names := store.names;
    ghost var data := store.data;
    var created := Create(store, final, pid, stamp, inode);
    if created.Failure? {
      return Failure;
    }
    var output := created.value;
    var ok, written := CopyChunks(output, chunks);
    if !ok {
      output.Drop();
      assert store.names == names;
      return Failure;
    }
    ok := output.CommitWithReplace(replace);
    if !ok {
      output.Drop();
      assert store.names == names;
      return Failure;
    }
    assert (names[output.temp := inode] - {output.temp})[Final(final) := inode] == names[Final(final) := inode];
    return Success(written);
  }
}
