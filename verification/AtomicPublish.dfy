/** Write-to-temporary-then-publish, as a machine over the system calls of any
    number of concurrent writers.  A directory entry names an inode and an
    inode holds bytes, so a hard link and an open file are what they are on
    disk.  A writer may stop for ever between any two calls. */
module AtomicPublish {

  /** A destination, or the temporary a writer minted for it. */
  datatype Path =
    | Final(name: string)
    | Temp(name: string, pid: nat, stamp: nat, attempt: nat)

  type Inode = nat

  /** Where a writer is between two of its calls. */
  datatype Phase =
    | Writing      // the file handle is open
    | Closed       // the handle is dropped, the commit has begun
    | Cleared      // the old destination is removed, the rename is to come
    | Checked      // hard links are refused and the destination was seen absent
    | Linked       // the destination is linked, the temporary is to be unlinked
    | Failed       // a call failed or the caller gave up; `Drop` is to come
    | Finished     // committed, or dropped
    | Crashed

  datatype Writer = Writer(final: string, temp: Path, inode: Inode, written: string, phase: Phase, published: bool)

  type Id = nat

  datatype State = State(names: map<Path, Inode>, data: map<Inode, string>, writers: map<Id, Writer>)

  datatype Step =
    | Create(id: Id, final: string, pid: nat, stamp: nat, attempt: nat, inode: Inode)
    | Write(id: Id, bytes: string)
    | Close(id: Id)
    | RenameReplace(id: Id)
    | RenameExclusive(id: Id)
    | HardLink(id: Id)
    | Unlink(id: Id)
    | Clear(id: Id)
    | RenameCleared(id: Id)
    | CheckAbsent(id: Id)
    | RenameChecked(id: Id)
    | Fail(id: Id)
    | DropTemp(id: Id)
    | Crash(id: Id)

  /** Phases in which the temporary is still the writer's to use. */
  predicate HoldsTemp(phase: Phase) {
    phase.Writing? || phase.Closed? || phase.Cleared? || phase.Checked? || phase.Failed?
  }

  predicate In(s: State, id: Id, phase: Phase) {
    id in s.writers && s.writers[id].phase == phase
  }

  predicate Enabled(s: State, step: Step) {
    match step
    case Create(id, final, pid, stamp, attempt, inode) =>
      && id !in s.writers && inode !in s.data
      && Temp(final, pid, stamp, attempt) !in s.names
    case Write(id, bytes) => In(s, id, Writing)
    case Close(id) => In(s, id, Writing)
    case RenameReplace(id) => In(s, id, Closed)
    case RenameExclusive(id) => In(s, id, Closed)
    case HardLink(id) => In(s, id, Closed)
    case Unlink(id) => In(s, id, Linked)
    case Clear(id) => In(s, id, Closed)
    case RenameCleared(id) => In(s, id, Cleared)
    case CheckAbsent(id) => In(s, id, Closed) && Final(s.writers[id].final) !in s.names
    case RenameChecked(id) => In(s, id, Checked)
    case Fail(id) => id in s.writers && HoldsTemp(s.writers[id].phase)
    case DropTemp(id) => id in s.writers && HoldsTemp(s.writers[id].phase)
    case Crash(id) => id in s.writers && s.writers[id].phase != Finished
  }

  function Goto(s: State, id: Id, phase: Phase): State
    requires id in s.writers
  {
    s.(writers := s.writers[id := s.writers[id].(phase := phase)])
  }

  /** `rename(2)` of a writer's temporary onto its destination. */
  function Publish(s: State, id: Id): State
    requires id in s.writers
  {
    var w := s.writers[id];
    State((s.names - {w.temp})[Final(w.final) := w.inode],
          s.data,
          s.writers[id := w.(phase := Finished, published := true)])
  }

  function Apply(s: State, step: Step): State
    requires Enabled(s, step)
  {
    match step
    case Create(id, final, pid, stamp, attempt, inode) =>
      var temp := Temp(final, pid, stamp, attempt);
      State(s.names[temp := inode], s.data[inode := ""],
            s.writers[id := Writer(final, temp, inode, "", Writing, false)])
    case Write(id, bytes) =>
      var w := s.writers[id];
      var before := if w.inode in s.data then s.data[w.inode] else "";
      State(s.names, s.data[w.inode := before + bytes],
            s.writers[id := w.(written := w.written + bytes)])
    case Close(id) => Goto(s, id, Closed)
    case RenameReplace(id) => Publish(s, id)
    case RenameExclusive(id) =>
      if Final(s.writers[id].final) in s.names then Goto(s, id, Failed) else Publish(s, id)
    case HardLink(id) =>
      var w := s.writers[id];
      if Final(w.final) in s.names then Goto(s, id, Failed)
      else State(s.names[Final(w.final) := w.inode], s.data,
                 s.writers[id := w.(phase := Linked, published := true)])
    case Unlink(id) =>
      Goto(s, id, Finished).(names := s.names - {s.writers[id].temp})
    case Clear(id) =>
      Goto(s, id, Cleared).(names := s.names - {Final(s.writers[id].final)})
    case RenameCleared(id) => Publish(s, id)
    case CheckAbsent(id) => Goto(s, id, Checked)
    case RenameChecked(id) => Publish(s, id)
    case Fail(id) => Goto(s, id, Failed)
    case DropTemp(id) =>
      Goto(s, id, Finished).(names := s.names - {s.writers[id].temp})
    case Crash(id) => Goto(s, id, Crashed)
  }

  /** What is read at a destination, if anything is there. */
  datatype Content = Absent | Bytes(bytes: string)

  function Read(s: State, name: string): Content {
    var p := Final(name);
    if p in s.names && s.names[p] in s.data then Bytes(s.data[s.names[p]]) else Absent
  }

  /** A disk before any writer: every name leads to some bytes. */
  predicate IsDisk(s: State) {
    s.writers == map[] && forall p :: p in s.names ==> s.names[p] in s.data
  }

  ghost predicate IsRun(states: seq<State>, steps: seq<Step>) {
    && |states| == |steps| + 1
    && IsDisk(states[0])
    && forall i :: 0 <= i < |steps| ==> Enabled(states[i], steps[i]) && states[i + 1] == Apply(states[i], steps[i])
  }

  // ----- what every call keeps

  ghost predicate WriterSound(s: State, w: Writer) {
    && w.inode in s.data
    && s.data[w.inode] == w.written
    && w.temp.Temp?
    && (HoldsTemp(w.phase) || w.phase.Linked? ==> w.temp in s.names && s.names[w.temp] == w.inode)
    && (!w.published ==> forall p :: p in s.names && s.names[p] == w.inode ==> p == w.temp)
    && (HoldsTemp(w.phase) ==> !w.published)
    && (w.phase.Linked? ==> w.published)
  }

  /** Inodes belong to one writer; temporaries in use have one owner. */
  ghost predicate NoSharing(s: State) {
    forall a, b :: a in s.writers && b in s.writers && a != b ==>
      && s.writers[a].inode != s.writers[b].inode
      && (InUse(s.writers[a]) && InUse(s.writers[b]) ==> s.writers[a].temp != s.writers[b].temp)
  }

  predicate InUse(w: Writer) {
    HoldsTemp(w.phase) || w.phase.Linked?
  }

  /** Files of the original disk keep their bytes and no writer has them. */
  ghost predicate OldKept(start: State, s: State) {
    forall i :: i in start.data ==>
      && i in s.data && s.data[i] == start.data[i]
      && forall id :: id in s.writers ==> s.writers[id].inode != i
  }

  /** A destination leads to an original file or to a published one. */
  ghost predicate NamesSound(start: State, s: State) {
    forall p :: p in s.names && p.Final? ==>
      || (p in start.names && s.names[p] == start.names[p])
      || exists id :: id in s.writers && s.writers[id].published && s.writers[id].inode == s.names[p]
                      && s.writers[id].final == p.name
  }

  ghost predicate NamesLead(s: State) {
    forall p :: p in s.names ==> s.names[p] in s.data
  }

  ghost predicate Invariant(start: State, s: State) {
    && (forall id :: id in s.writers ==> WriterSound(s, s.writers[id]))
    && NoSharing(s)
    && OldKept(start, s)
    && NamesSound(start, s)
    && NamesLead(s)
  }

  lemma {:induction false} DiskInvariant(start: State)
    requires IsDisk(start)
    ensures Invariant(start, start)
  {
  }

  lemma {:induction false} StepKeepsInvariant(start: State, s: State, step: Step)
    requires IsDisk(start) && Invariant(start, s) && Enabled(s, step)
    ensures Invariant(start, Apply(s, step))
  {
    match step
    case Create(id, final, pid, stamp, attempt, inode) => CreateKeepsInvariant(start, s, step);
    case Write(id, bytes) => WriteKeepsInvariant(start, s, id, bytes);
    case Close(id) => GotoKeepsInvariant(start, s, id, Closed);
    case RenameReplace(id) => PublishKeepsInvariant(start, s, id);
    case RenameExclusive(id) =>
      if Final(s.writers[id].final) in s.names {
        GotoKeepsInvariant(start, s, id, Failed);
      } else {
        PublishKeepsInvariant(start, s, id);
      }
    case HardLink(id) =>
      if Final(s.writers[id].final) in s.names {
        GotoKeepsInvariant(start, s, id, Failed);
      } else {
        LinkKeepsInvariant(start, s, id);
      }
    case Unlink(id) => UnlinkKeepsInvariant(start, s, id);
    case Clear(id) =>
      GotoKeepsInvariant(start, s, id, Cleared);
      ClearKeepsInvariant(start, Goto(s, id, Cleared), s.writers[id].final);
    case RenameCleared(id) => PublishKeepsInvariant(start, s, id);
    case CheckAbsent(id) => GotoKeepsInvariant(start, s, id, Checked);
    case RenameChecked(id) => PublishKeepsInvariant(start, s, id);
    case Fail(id) => GotoKeepsInvariant(start, s, id, Failed);
    case DropTemp(id) => UnlinkKeepsInvariant(start, s, id);
    case Crash(id) => GotoKeepsInvariant(start, s, id, Crashed);
  }

  lemma {:induction false} CreateKeepsInvariant(start: State, s: State, step: Step)
    requires IsDisk(start) && Invariant(start, s) && step.Create? && Enabled(s, step)
    ensures Invariant(start, Apply(s, step))
  {
    var s' := Apply(s, step);
    NamesStaySound(start, s, s');
    forall id | id in s'.writers
      ensures WriterSound(s', s'.writers[id])
    {
      if id != step.id {
        assert WriterSound(s, s.writers[id]);
      }
    }
  }

  /** Names that do not change stay sound while writers only come and go on. */
  lemma {:induction false} NamesStaySound(start: State, s: State, s': State)
    requires NamesSound(start, s)
    requires forall p :: p in s'.names && p.Final? ==> p in s.names && s'.names[p] == s.names[p]
    requires forall id :: id in s.writers && s.writers[id].published ==>
               && id in s'.writers && s'.writers[id].published
               && s'.writers[id].inode == s.writers[id].inode
               && s'.writers[id].final == s.writers[id].final
    ensures NamesSound(start, s')
  {
    forall p | p in s'.names && p.Final? && !(p in start.names && s'.names[p] == start.names[p])
      ensures exists id :: id in s'.writers && s'.writers[id].published
                && s'.writers[id].inode == s'.names[p] && s'.writers[id].final == p.name
    {
      var id :| id in s.writers && s.writers[id].published && s.writers[id].inode == s.names[p]
                && s.writers[id].final == p.name;
      assert id in s'.writers;
    }
  }

  lemma {:induction false} WriteKeepsWriters(start: State, s: State, id: Id, bytes: string)
    requires Invariant(start, s) && In(s, id, Writing)
    ensures var s' := Apply(s, Write(id, bytes));
            (forall other :: other in s'.writers ==> WriterSound(s', s'.writers[other])) && NoSharing(s')
  {
    var s' := Apply(s, Write(id, bytes));
    forall other | other in s'.writers
      ensures WriterSound(s', s'.writers[other])
    {
      assert WriterSound(s, s.writers[other]);
    }
  }

  lemma {:induction false} WriteKeepsOld(start: State, s: State, id: Id, bytes: string)
    requires IsDisk(start) && Invariant(start, s) && In(s, id, Writing)
    ensures var s' := Apply(s, Write(id, bytes));
            OldKept(start, s') && NamesLead(s')
  {
    assert WriterSound(s, s.writers[id]);
  }

  lemma {:induction false} WriteKeepsInvariant(start: State, s: State, id: Id, bytes: string)
    requires IsDisk(start) && Invariant(start, s) && In(s, id, Writing)
    ensures Invariant(start, Apply(s, Write(id, bytes)))
  {
    NamesStaySound(start, s, Apply(s, Write(id, bytes)));
    WriteKeepsWriters(start, s, id, bytes);
    WriteKeepsOld(start, s, id, bytes);
  }

  lemma {:induction false} GotoKeepsInvariant(start: State, s: State, id: Id, phase: Phase)
    requires IsDisk(start) && Invariant(start, s) && id in s.writers
    requires (HoldsTemp(s.writers[id].phase) && HoldsTemp(phase)) || phase == Crashed
    ensures Invariant(start, Goto(s, id, phase))
  {
    NamesStaySound(start, s, Goto(s, id, phase));
  }

  lemma {:induction false} PublishKeepsInvariant(start: State, s: State, id: Id)
    requires IsDisk(start) && Invariant(start, s) && id in s.writers && HoldsTemp(s.writers[id].phase)
    ensures Invariant(start, Publish(s, id))
  {
    var s' := Publish(s, id);
    forall p | p in s'.names && p.Final? && !(p in start.names && s'.names[p] == start.names[p])
      ensures exists id :: id in s'.writers && s'.writers[id].published
                && s'.writers[id].inode == s'.names[p] && s'.writers[id].final == p.name
    {
      if p == Final(s.writers[id].final) {
        assert s'.writers[id].published && s'.writers[id].inode == s'.names[p];
      } else {
        var other :| other in s.writers && s.writers[other].published && s.writers[other].inode == s.names[p]
                     && s.writers[other].final == p.name;
        assert other in s'.writers && other != id;
      }
    }
    forall other | other in s'.writers
      ensures WriterSound(s', s'.writers[other])
    {
      assert WriterSound(s, s.writers[other]);
    }
  }

  lemma {:induction false} LinkKeepsInvariant(start: State, s: State, id: Id)
    requires IsDisk(start) && Invariant(start, s) && In(s, id, Closed)
    requires Final(s.writers[id].final) !in s.names
    ensures Invariant(start, Apply(s, HardLink(id)))
  {
    var s' := Apply(s, HardLink(id));
    forall p | p in s'.names && p.Final? && !(p in start.names && s'.names[p] == start.names[p])
      ensures exists id :: id in s'.writers && s'.writers[id].published
                && s'.writers[id].inode == s'.names[p] && s'.writers[id].final == p.name
    {
      if p == Final(s.writers[id].final) {
        assert s'.writers[id].published && s'.writers[id].inode == s'.names[p];
      } else {
        var other :| other in s.writers && s.writers[other].published && s.writers[other].inode == s.names[p]
                     && s.writers[other].final == p.name;
        assert other in s'.writers && other != id;
      }
    }
    forall other | other in s'.writers
      ensures WriterSound(s', s'.writers[other])
    {
      assert WriterSound(s, s.writers[other]);
    }
  }

  lemma {:induction false} UnlinkKeepsInvariant(start: State, s: State, id: Id)
    requires IsDisk(start) && Invariant(start, s) && id in s.writers && InUse(s.writers[id])
    ensures Invariant(start, Goto(s, id, Finished).(names := s.names - {s.writers[id].temp}))
  {
    var s' := Goto(s, id, Finished).(names := s.names - {s.writers[id].temp});
    NamesStaySound(start, s, s');
    forall other | other in s'.writers
      ensures WriterSound(s', s'.writers[other])
    {
      assert WriterSound(s, s.writers[other]);
    }
  }

  lemma {:induction false} ClearKeepsInvariant(start: State, s: State, final: string)
    requires IsDisk(start) && Invariant(start, s)
    ensures Invariant(start, s.(names := s.names - {Final(final)}))
  {
    var s' := s.(names := s.names - {Final(final)});
    NamesStaySound(start, s, s');
    forall other | other in s'.writers
      ensures WriterSound(s', s'.writers[other])
    {
      assert WriterSound(s, s.writers[other]);
    }
  }

  lemma {:induction false} RunInvariant(states: seq<State>, steps: seq<Step>, i: nat)
    requires IsRun(states, steps) && i < |states|
    ensures Invariant(states[0], states[i])
    decreases i
  {
    if i == 0 {
      DiskInvariant(states[0]);
    } else {
      RunInvariant(states, steps, i - 1);
      StepKeepsInvariant(states[0], states[i - 1], steps[i - 1]);
    }
  }

  // ----- owners

  /** In every state of every run a temporary in use has one owner, is on disk,
      and holds exactly what its owner has written. */
  lemma {:induction false} TemporaryHasOneOwner(states: seq<State>, steps: seq<Step>, i: nat, a: Id)
    requires IsRun(states, steps) && i < |states|
    requires a in states[i].writers && InUse(states[i].writers[a])
    ensures var s, w := states[i], states[i].writers[a];
            && w.temp in s.names && s.names[w.temp] == w.inode
            && w.inode in s.data && s.data[w.inode] == w.written
            && forall b :: b in s.writers && InUse(s.writers[b]) && s.writers[b].temp == w.temp ==> b == a
  {
    RunInvariant(states, steps, i);
  }

  // ----- what a reader of a destination sees

  /** The commit has begun: the handle is gone and no byte follows. */
  predicate PastClose(w: Writer) {
    w.phase.Closed? || w.phase.Cleared? || w.phase.Checked? || w.phase.Linked? || w.published
  }

  /** Everything writer `id` had written when it closed its file at step `c`. */
  ghost predicate ClosedWith(states: seq<State>, steps: seq<Step>, c: nat, id: Id, bytes: string)
    requires IsRun(states, steps)
  {
    c < |steps| && steps[c] == Close(id) && states[c].writers[id].written == bytes
  }

  lemma {:induction false} CloseIsComplete(states: seq<State>, steps: seq<Step>, i: nat, id: Id) returns (c: nat)
    requires IsRun(states, steps) && i < |states|
    requires id in states[i].writers && PastClose(states[i].writers[id])
    ensures c < i && ClosedWith(states, steps, c, id, states[i].writers[id].written)
    decreases i
  {
    if i == 0 {
      assert false;
    }
    RunStep(states, steps, i - 1);
    if steps[i - 1] == Close(id) {
      c := i - 1;
    } else {
      PastCloseComesFrom(states[0], states[i - 1], steps[i - 1], id);
      c := CloseIsComplete(states, steps, i - 1, id);
    }
  }

  /** Only `Close` takes a writer past its close, and nothing it wrote changes
      from there on. */
  lemma {:induction false} PastCloseComesFrom(start: State, s: State, step: Step, id: Id)
    requires Invariant(start, s) && Enabled(s, step) && step != Close(id)
    requires id in Apply(s, step).writers && PastClose(Apply(s, step).writers[id])
    ensures id in s.writers && PastClose(s.writers[id])
    ensures Apply(s, step).writers[id].written == s.writers[id].written
  {
    if step.id == id {
      if step.Create? {
        assert false;
      }
      assert WriterSound(s, s.writers[id]);
    } else {
      OthersUntouched(s, step, id);
    }
  }

  lemma {:induction false} OthersUntouched(s: State, step: Step, id: Id)
    requires Enabled(s, step) && step.id != id
    ensures id in Apply(s, step).writers <==> id in s.writers
    ensures id in s.writers ==> Apply(s, step).writers[id] == s.writers[id]
  {
  }

  /** A destination holds what it held at the start, or all that one writer had
      written by the time it closed its file: never a part of it. */
  lemma {:induction false} ReaderSeesOldOrComplete(states: seq<State>, steps: seq<Step>, i: nat, name: string)
    requires IsRun(states, steps) && i < |states| && Read(states[i], name).Bytes?
    ensures || Read(states[i], name) == Read(states[0], name)
            || exists c: nat, id :: c < i && ClosedWith(states, steps, c, id, Read(states[i], name).bytes)
  {
    RunInvariant(states, steps, i);
    var s, p := states[i], Final(name);
    if !(p in states[0].names && s.names[p] == states[0].names[p]) {
      var id :| id in s.writers && s.writers[id].published && s.writers[id].inode == s.names[p]
                && s.writers[id].final == p.name;
      assert WriterSound(s, s.writers[id]);
      var c := CloseIsComplete(states, steps, i, id);
    }
  }

  /** The step is a removal of `name` ahead of a rename. */
  predicate Clears(s: State, step: Step, name: string) {
    step.Clear? && step.id in s.writers && s.writers[step.id].final == name
  }

  lemma {:induction false} StepKeepsFinal(start: State, s: State, step: Step, name: string)
    requires Invariant(start, s) && Enabled(s, step) && !Clears(s, step, name)
    requires Final(name) in s.names
    ensures Final(name) in Apply(s, step).names
  {
    StepIsQuietOrWins(start, s, step, name);
  }

  /** Without a clearing commit, a destination that exists never disappears,
      whatever the writers do and wherever they stop. */
  lemma {:induction false} FinalNeverDisappears(states: seq<State>, steps: seq<Step>, i: nat, j: nat, name: string)
    requires IsRun(states, steps) && i <= j < |states|
    requires Read(states[i], name).Bytes?
    requires forall k :: i <= k < j ==> !Clears(states[k], steps[k], name)
    ensures Read(states[j], name).Bytes?
    decreases j - i
  {
    if i < j {
      FinalNeverDisappears(states, steps, i, j - 1, name);
      RunStep(states, steps, j - 1);
      StepKeepsFinal(states[0], states[j - 1], steps[j - 1], name);
      ExistingFinalReads(states, steps, j, name);
    }
  }

  /** A destination that exists is there in every later state of a stretch of a run
      if and only if no step of the stretch clears it. */
  lemma {:induction false} FinalStaysIff(states: seq<State>, steps: seq<Step>, i: nat, j: nat, name: string)
    requires IsRun(states, steps) && i <= j < |states|
    requires Read(states[i], name).Bytes?
    ensures (forall m :: i <= m <= j ==> Read(states[m], name).Bytes?) <==>
            (forall k :: i <= k < j ==> !Clears(states[k], steps[k], name))
  {
    if forall k :: i <= k < j ==> !Clears(states[k], steps[k], name) {
      forall m | i <= m <= j ensures Read(states[m], name).Bytes? {
        FinalNeverDisappears(states, steps, i, m, name);
      }
    } else {
      var k :| i <= k < j && Clears(states[k], steps[k], name);
      ClearedIsGone(states, steps, k, name);
    }
  }

  lemma {:induction false} ClearedIsGone(states: seq<State>, steps: seq<Step>, k: nat, name: string)
    requires IsRun(states, steps) && k < |steps| && Clears(states[k], steps[k], name)
    ensures !Read(states[k + 1], name).Bytes?
  {
    RunStep(states, steps, k);
    ExistingFinalReads(states, steps, k + 1, name);
  }

  /** Step `k` of a run leads from a sound state to the next. */
  lemma {:induction false} RunStep(states: seq<State>, steps: seq<Step>, k: nat)
    requires IsRun(states, steps) && k < |steps|
    ensures Invariant(states[0], states[k])
    ensures Enabled(states[k], steps[k]) && states[k + 1] == Apply(states[k], steps[k])
  {
    RunInvariant(states, steps, k);
  }

  lemma {:induction false} ExistingFinalReads(states: seq<State>, steps: seq<Step>, i: nat, name: string)
    requires IsRun(states, steps) && i < |states|
    ensures Read(states[i], name).Bytes? <==> Final(name) in states[i].names
  {
    RunInvariant(states, steps, i);
  }

  // ----- refusing to replace

  /** The writer a step belongs to aims at `name`. */
  predicate Aims(s: State, step: Step, name: string) {
    step.id in s.writers && s.writers[step.id].final == name
  }

  /** Only refusing commits publish `name`: an exclusive rename, a hard link,
      or the check-then-rename fallback. */
  ghost predicate RefusingOnly(states: seq<State>, steps: seq<Step>, name: string)
    requires IsRun(states, steps)
  {
    forall k :: 0 <= k < |steps| && Aims(states[k], steps[k], name) ==>
      !steps[k].RenameReplace? && !steps[k].Clear? && !steps[k].RenameCleared?
  }

  /** The fallback's rename still finds the destination absent. */
  ghost predicate ChecksHold(states: seq<State>, steps: seq<Step>, n: nat, name: string)
    requires IsRun(states, steps)
  {
    forall k :: 0 <= k < n && k < |steps| && Aims(states[k], steps[k], name) && steps[k].RenameChecked? ==>
      Final(name) !in states[k].names
  }

  predicate Won(s: State, id: Id, name: string) {
    id in s.writers && s.writers[id].final == name && s.writers[id].published
  }

  ghost predicate AtMostOneWinner(s: State, name: string) {
    forall a, b :: Won(s, a, name) && Won(s, b, name) ==> a == b
  }

  /** The destination is absent until it is won, and then it is the winner's. */
  ghost predicate WinnerHolds(s: State, name: string) {
    && (forall a :: Won(s, a, name) ==> Final(name) in s.names && s.names[Final(name)] == s.writers[a].inode)
    && (Final(name) in s.names ==> exists a :: Won(s, a, name))
  }

  lemma {:induction false} WinnerInvariant(states: seq<State>, steps: seq<Step>, i: nat, name: string)
    requires IsRun(states, steps) && i < |states|
    requires Final(name) !in states[0].names
    requires RefusingOnly(states, steps, name) && ChecksHold(states, steps, i, name)
    ensures AtMostOneWinner(states[i], name) && WinnerHolds(states[i], name)
    decreases i
  {
    if i > 0 {
      WinnerInvariant(states, steps, i - 1, name);
      RunInvariant(states, steps, i - 1);
      WinnerStep(states[0], states[i - 1], steps[i - 1], name);
    }
  }

  /** The step leaves the entry `name` and its winners as they are ... */
  ghost predicate Quiet(s: State, s': State, name: string) {
    && (Final(name) in s'.names <==> Final(name) in s.names)
    && (Final(name) in s.names ==> s'.names[Final(name)] == s.names[Final(name)])
    && (forall a :: Won(s', a, name) <==> Won(s, a, name))
    && (forall a :: Won(s, a, name) ==> Same(s, s', a))
  }

  /** ... or makes `id` a winner. */
  ghost predicate Wins(s: State, s': State, id: Id, name: string) {
    && id in s.writers
    && Final(name) in s'.names && s'.names[Final(name)] == s.writers[id].inode
    && (forall a :: Won(s', a, name) <==> Won(s, a, name) || a == id)
    && (forall a :: Won(s, a, name) ==> Same(s, s', a))
    && Same(s, s', id)
  }

  predicate Same(s: State, s': State, a: Id) {
    && a in s.writers && a in s'.writers
    && s'.writers[a].inode == s.writers[a].inode && s'.writers[a].written == s.writers[a].written
  }

  predicate Publishes(step: Step) {
    step.RenameReplace? || step.RenameCleared? || step.RenameChecked? || step.RenameExclusive? || step.HardLink?
  }

  predicate Refuses(step: Step) {
    step.RenameExclusive? || step.HardLink?
  }

  /** A publishing step aimed at `name` wins it, unless it refuses because the
      destination is taken; every other step is quiet. */
  lemma {:induction false} StepIsQuietOrWins(start: State, s: State, step: Step, name: string)
    requires Invariant(start, s) && Enabled(s, step)
    requires Aims(s, step, name) ==> !step.Clear?
    ensures if Aims(s, step, name) && Publishes(step) && !(Refuses(step) && Final(name) in s.names)
            then Wins(s, Apply(s, step), step.id, name)
            else Quiet(s, Apply(s, step), name)
  {
    if Publishes(step) {
      PublishingStep(start, s, step, name);
    } else {
      QuietStep(start, s, step, name);
    }
  }

  lemma {:induction false} PublishingStep(start: State, s: State, step: Step, name: string)
    requires Invariant(start, s) && Enabled(s, step) && Publishes(step)
    ensures if Aims(s, step, name) && !(Refuses(step) && Final(name) in s.names)
            then Wins(s, Apply(s, step), step.id, name)
            else Quiet(s, Apply(s, step), name)
  {
    if step.HardLink? {
      LinkEffect(start, s, step.id, name);
    } else if step.RenameExclusive? && Final(s.writers[step.id].final) in s.names {
      GotoIsQuiet(s, step.id, Failed, name);
    } else {
      PublishEffect(start, s, step.id, name);
    }
  }

  lemma {:induction false} QuietStep(start: State, s: State, step: Step, name: string)
    requires Invariant(start, s) && Enabled(s, step) && !Publishes(step)
    requires Aims(s, step, name) ==> !step.Clear?
    ensures Quiet(s, Apply(s, step), name)
  {
    if step.Create? {
      CreateIsQuiet(s, step, name);
    } else if step.Write? {
      WriteIsQuiet(start, s, step, name);
    } else if step.Unlink? || step.DropTemp? {
      UnlinkIsQuiet(start, s, step, name);
    } else if step.Clear? {
      ClearIsQuiet(s, step, name);
    } else {
      GotoIsQuiet(s, step.id, Apply(s, step).writers[step.id].phase, name);
    }
  }

  lemma {:induction false} ClearIsQuiet(s: State, step: Step, name: string)
    requires step.Clear? && Enabled(s, step) && s.writers[step.id].final != name
    ensures Quiet(s, Apply(s, step), name)
  {
    GotoIsQuiet(s, step.id, Cleared, name);
  }

  lemma {:induction false} GotoIsQuiet(s: State, id: Id, phase: Phase, name: string)
    requires id in s.writers
    ensures Quiet(s, Goto(s, id, phase), name)
  {
  }

  lemma {:induction false} CreateIsQuiet(s: State, step: Step, name: string)
    requires step.Create? && Enabled(s, step)
    ensures Quiet(s, Apply(s, step), name)
  {
  }

  lemma {:induction false} WriteIsQuiet(start: State, s: State, step: Step, name: string)
    requires Invariant(start, s) && step.Write? && Enabled(s, step)
    ensures Quiet(s, Apply(s, step), name)
  {
    assert WriterSound(s, s.writers[step.id]);
  }

  lemma {:induction false} UnlinkIsQuiet(start: State, s: State, step: Step, name: string)
    requires Invariant(start, s) && (step.Unlink? || step.DropTemp?) && Enabled(s, step)
    ensures Quiet(s, Apply(s, step), name)
  {
    assert WriterSound(s, s.writers[step.id]);
    GotoIsQuiet(s, step.id, Finished, name);
  }

  lemma {:induction false} PublishEffect(start: State, s: State, id: Id, name: string)
    requires Invariant(start, s) && id in s.writers && HoldsTemp(s.writers[id].phase)
    ensures if s.writers[id].final == name then Wins(s, Publish(s, id), id, name)
            else Quiet(s, Publish(s, id), name)
  {
    assert WriterSound(s, s.writers[id]);
  }

  lemma {:induction false} LinkEffect(start: State, s: State, id: Id, name: string)
    requires Invariant(start, s) && In(s, id, Closed)
    ensures if s.writers[id].final == name && Final(name) !in s.names
            then Wins(s, Apply(s, HardLink(id)), id, name)
            else Quiet(s, Apply(s, HardLink(id)), name)
  {
    assert WriterSound(s, s.writers[id]);
  }

  lemma {:induction false} WinnerStep(start: State, s: State, step: Step, name: string)
    requires Invariant(start, s) && Enabled(s, step)
    requires AtMostOneWinner(s, name) && WinnerHolds(s, name)
    requires Aims(s, step, name) ==> !step.RenameReplace? && !step.Clear? && !step.RenameCleared?
    requires Aims(s, step, name) && step.RenameChecked? ==> Final(name) !in s.names
    ensures AtMostOneWinner(Apply(s, step), name) && WinnerHolds(Apply(s, step), name)
    ensures forall a :: Won(s, a, name) ==> Won(Apply(s, step), a, name) && Same(s, Apply(s, step), a)
  {
    var s' := Apply(s, step);
    StepIsQuietOrWins(start, s, step, name);
    if Quiet(s, s', name) {
      assert forall a :: Won(s', a, name) ==> Won(s, a, name);
      assert forall a :: Won(s, a, name) ==> Won(s', a, name);
    } else {
      assert Final(name) !in s.names;
      assert forall a :: !Won(s, a, name);
      assert Won(s', step.id, name);
    }
  }

  /** On an absent destination at most one refusing writer wins, in every
      state, exactly when no fallback rename finds the destination taken. */
  lemma {:induction false} AtMostOneWinnerIff(states: seq<State>, steps: seq<Step>, name: string)
    requires IsRun(states, steps)
    requires Final(name) !in states[0].names && RefusingOnly(states, steps, name)
    ensures ChecksHold(states, steps, |steps|, name) <==>
            forall i :: 0 <= i < |states| ==> AtMostOneWinner(states[i], name)
  {
    if ChecksHold(states, steps, |steps|, name) {
      forall i | 0 <= i < |states|
        ensures AtMostOneWinner(states[i], name)
      {
        WinnerInvariant(states, steps, i, name);
      }
    } else {
      var k := FirstBrokenCheck(states, steps, name);
      WinnerInvariant(states, steps, k, name);
      RunInvariant(states, steps, k);
      var s := states[k];
      var a :| Won(s, a, name);
      assert WriterSound(s, s.writers[steps[k].id]);
      assert Won(states[k + 1], a, name) && Won(states[k + 1], steps[k].id, name);
      assert !AtMostOneWinner(states[k + 1], name);
    }
  }

  lemma {:induction false} FirstBrokenCheck(states: seq<State>, steps: seq<Step>, name: string) returns (k: nat)
    requires IsRun(states, steps) && !ChecksHold(states, steps, |steps|, name)
    ensures k < |steps| && ChecksHold(states, steps, k, name)
    ensures Aims(states[k], steps[k], name) && steps[k].RenameChecked? && Final(name) in states[k].names
  {
    k := 0;
    while ChecksHold(states, steps, k + 1, name)
      invariant k <= |steps| && ChecksHold(states, steps, k, name)
      decreases |steps| - k
    {
      k := k + 1;
    }
  }

  /** Once a refusing call has been made on an absent destination there is a
      winner; it stays the only one and its content stays. */
  lemma {:induction false} WinnerStays(states: seq<State>, steps: seq<Step>, k: nat, i: nat, name: string) returns (winner: Id)
    requires IsRun(states, steps) && k < i < |states|
    requires Final(name) !in states[0].names
    requires RefusingOnly(states, steps, name) && ChecksHold(states, steps, |steps|, name)
    requires Aims(states[k], steps[k], name)
    requires steps[k].RenameExclusive? || steps[k].HardLink? || steps[k].RenameChecked?
    ensures Won(states[k + 1], winner, name) && Won(states[i], winner, name)
    ensures forall b :: Won(states[i], b, name) ==> b == winner
    ensures Read(states[i], name) == Read(states[k + 1], name) == Bytes(states[i].writers[winner].written)
    decreases i
  {
    if i == k + 1 {
      winner := FirstWinner(states, steps, k, name);
    } else {
      winner := WinnerStays(states, steps, k, i - 1, name);
      WinnerKept(states, steps, i, winner, name);
    }
    WinnerFacts(states, steps, i, winner, name);
  }

  lemma {:induction false} FirstWinner(states: seq<State>, steps: seq<Step>, k: nat, name: string) returns (winner: Id)
    requires IsRun(states, steps) && k < |steps| && Final(name) !in states[0].names
    requires RefusingOnly(states, steps, name) && ChecksHold(states, steps, |steps|, name)
    requires Aims(states[k], steps[k], name)
    requires steps[k].RenameExclusive? || steps[k].HardLink? || steps[k].RenameChecked?
    ensures Won(states[k + 1], winner, name)
  {
    WinnerInvariant(states, steps, k + 1, name);
    RunInvariant(states, steps, k);
    StepIsQuietOrWins(states[0], states[k], steps[k], name);
    winner :| Won(states[k + 1], winner, name);
  }

  lemma {:induction false} WinnerFacts(states: seq<State>, steps: seq<Step>, i: nat, winner: Id, name: string)
    requires IsRun(states, steps) && i < |states| && Final(name) !in states[0].names
    requires RefusingOnly(states, steps, name) && ChecksHold(states, steps, |steps|, name)
    requires Won(states[i], winner, name)
    ensures forall b :: Won(states[i], b, name) ==> b == winner
    ensures Read(states[i], name) == Bytes(states[i].writers[winner].written)
  {
    WinnerInvariant(states, steps, i, name);
    RunInvariant(states, steps, i);
    WinnerReads(states[0], states[i], winner, name);
  }

  lemma {:induction false} WinnerKept(states: seq<State>, steps: seq<Step>, i: nat, winner: Id, name: string)
    requires IsRun(states, steps) && 0 < i < |states|
    requires Final(name) !in states[0].names
    requires RefusingOnly(states, steps, name) && ChecksHold(states, steps, i, name)
    requires Won(states[i - 1], winner, name)
    ensures Won(states[i], winner, name) && Same(states[i - 1], states[i], winner)
  {
    WinnerInvariant(states, steps, i - 1, name);
    RunInvariant(states, steps, i - 1);
    WinnerStep(states[0], states[i - 1], steps[i - 1], name);
  }

  lemma {:induction false} WinnerReads(start: State, s: State, winner: Id, name: string)
    requires Invariant(start, s) && WinnerHolds(s, name) && Won(s, winner, name)
    ensures Read(s, name) == Bytes(s.writers[winner].written)
  {
    assert WriterSound(s, s.writers[winner]);
  }

  // ----- what a check-then-rename overwrites

  /** A writer past its check made it at some step, and has waited since. */
  lemma {:induction false} CheckedSince(states: seq<State>, steps: seq<Step>, k: nat, id: Id) returns (i: nat)
    requires IsRun(states, steps) && k < |states| && In(states[k], id, Checked)
    ensures i < k && steps[i] == CheckAbsent(id)
    ensures forall m :: i < m <= k ==> In(states[m], id, Checked) && states[m].writers[id] == states[k].writers[id]
    decreases k
  {
    CheckedBefore(states[k - 1], steps[k - 1], id);
    if steps[k - 1] == CheckAbsent(id) {
      i := k - 1;
    } else {
      i := CheckedSince(states, steps, k - 1, id);
    }
  }

  lemma {:induction false} CheckedBefore(s: State, step: Step, id: Id)
    requires Enabled(s, step) && In(Apply(s, step), id, Checked)
    ensures step == CheckAbsent(id) || (In(s, id, Checked) && Apply(s, step).writers[id] == s.writers[id])
  {
  }

  /** Only publishing makes a destination appear. */
  lemma {:induction false} AppearsByPublishing(s: State, step: Step, name: string)
    requires Enabled(s, step) && Final(name) !in s.names && Final(name) in Apply(s, step).names
    ensures Publishes(step) && Aims(s, step, name)
  {
  }

  lemma {:induction false} AppearedAt(states: seq<State>, steps: seq<Step>, i: nat, k: nat, name: string) returns (j: nat)
    requires IsRun(states, steps) && i <= k < |states|
    requires Final(name) !in states[i].names && Final(name) in states[k].names
    ensures i <= j < k && Final(name) !in states[j].names && Final(name) in states[j + 1].names
    decreases k - i
  {
    if Final(name) in states[i + 1].names {
      j := i;
    } else {
      j := AppearedAt(states, steps, i + 1, k, name);
    }
  }

  /** A check-then-rename overwrites a destination only if another writer published
      it after the check had found it absent. */
  lemma {:induction false} ClobberNeedsRace(states: seq<State>, steps: seq<Step>, k: nat, id: Id) returns (i: nat, j: nat)
    requires IsRun(states, steps) && k < |steps| && steps[k] == RenameChecked(id)
    requires Final(states[k].writers[id].final) in states[k].names
    ensures var name := states[k].writers[id].final;
            && i < j < k && steps[i] == CheckAbsent(id) && Final(name) !in states[i].names
            && steps[j].id != id && Publishes(steps[j]) && Aims(states[j], steps[j], name)
  {
    var name := states[k].writers[id].final;
    i := CheckedSince(states, steps, k, id);
    assert states[i + 1].writers[id].final == name;
    j := AppearedAt(states, steps, i + 1, k, name);
    AppearsByPublishing(states[j], steps[j], name);
    PublishingEndsCheck(states[j], steps[j], id);
  }

  lemma {:induction false} PublishingEndsCheck(s: State, step: Step, id: Id)
    requires Enabled(s, step) && Publishes(step) && In(s, id, Checked) && In(Apply(s, step), id, Checked)
    ensures step.id != id
  {
  }

  // ----- where the guarantees end

  lemma {:induction false} ExtendRun(states: seq<State>, steps: seq<Step>, step: Step, next: State)
    requires IsRun(states, steps)
    requires Enabled(states[|steps|], step) && next == Apply(states[|steps|], step)
    ensures IsRun(states + [next], steps + [step])
  {
    var longer, all := states + [next], steps + [step];
    forall i | 0 <= i < |all|
      ensures Enabled(longer[i], all[i]) && longer[i + 1] == Apply(longer[i], all[i])
    {
      assert longer[i] == states[i];
      assert i < |steps| ==> all[i] == steps[i] && longer[i + 1] == states[i + 1];
    }
  }

  /** Two writers on the check-then-rename fallback can both win. */
  lemma {:induction false} CheckThenRenameClobbers() returns (states: seq<State>, steps: seq<Step>)
    ensures IsRun(states, steps) && Final("f") !in states[0].names && RefusingOnly(states, steps, "f")
    ensures Won(states[|steps|], 0, "f") && Won(states[|steps|], 1, "f")
  {
    states, steps := TwoClosedWriters();
    states, steps := Extended(states, steps, CheckAbsent(0));
    states, steps := Extended(states, steps, CheckAbsent(1));
    states, steps := Extended(states, steps, RenameChecked(0));
    states, steps := Extended(states, steps, RenameChecked(1));
  }

  lemma {:induction false} TwoClosedWriters() returns (states: seq<State>, steps: seq<Step>)
    ensures IsRun(states, steps) && |steps| == 4
    ensures Final("f") !in states[0].names && RefusingOnly(states, steps, "f")
    ensures var s := states[4];
            && In(s, 0, Closed) && In(s, 1, Closed) && Final("f") !in s.names
            && s.writers[0].final == s.writers[1].final == "f"
  {
    var s := State(map[], map[], map[]);
    states, steps := [s], [];
    states, steps := Extended(states, steps, Create(0, "f", 0, 0, 0, 0));
    states, steps := Extended(states, steps, Create(1, "f", 0, 0, 1, 1));
    states, steps := Extended(states, steps, Close(0));
    states, steps := Extended(states, steps, Close(1));
  }

  /** A commit that clears first can stop with the destination gone. */
  lemma {:induction false} ClearingCanLoseTheFile() returns (states: seq<State>, steps: seq<Step>)
    ensures IsRun(states, steps)
    ensures Read(states[0], "f") == Bytes("old") && Read(states[|steps|], "f") == Absent
    ensures In(states[|steps|], 0, Crashed)
  {
    var s := State(map[Final("f") := 0], map[0 := "old"], map[]);
    states, steps := [s], [];
    states, steps := Extended(states, steps, Create(0, "f", 0, 0, 0, 1));
    states, steps := Extended(states, steps, Close(0));
    states, steps := Extended(states, steps, Clear(0));
    states, steps := Extended(states, steps, Crash(0));
  }

  lemma {:induction false} Extended(states: seq<State>, steps: seq<Step>, step: Step)
    returns (states': seq<State>, steps': seq<Step>)
    requires IsRun(states, steps) && Enabled(states[|steps|], step)
    ensures steps' == steps + [step]
    ensures states' == states + [Apply(states[|steps|], step)]
    ensures IsRun(states', steps')
  {
    ExtendRun(states, steps, step, Apply(states[|steps|], step));
    states', steps' := states + [Apply(states[|steps|], step)], steps + [step];
  }
}
