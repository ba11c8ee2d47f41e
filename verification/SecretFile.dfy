/** The writer of secret files: like the output file it writes a temporary and
    renames it into place, but when a candidate name is taken it removes that
    candidate before it tries the next.  Whether a writer keeps its temporary
    depends on who else uses its candidate names. */
module SecretFile {

  type Id = nat

  type Inode = nat

  /** A candidate spells out the writer's key (file, process and clock reading)
      and the attempt. */
  datatype Name = Candidate(key: nat, attempt: nat) | Final(path: string)

  /** What a writer is to do. */
  datatype Job = Job(key: nat, path: string, bytes: string)

  type Jobs = map<Id, Job>

  datatype Phase = Trying | Blocked | Writing | Finished | Dead

  datatype Writer = Writer(attempt: nat, inode: Inode, written: string, phase: Phase)

  datatype State = State(names: map<Name, Inode>, data: map<Inode, string>, writers: map<Id, Writer>)

  datatype Step =
    | Open(id: Id, inode: Inode)
    | Discard(id: Id)
    | Append(id: Id, piece: string)
    | Rename(id: Id)
    | Abort(id: Id)
    | Crash(id: Id)

  const MAX_ATTEMPTS: nat := 100

  function Temp(jobs: Jobs, s: State, id: Id): Name
    requires id in jobs && id in s.writers
  {
    Candidate(jobs[id].key, s.writers[id].attempt)
  }

  predicate In(jobs: Jobs, s: State, id: Id, phase: Phase) {
    id in jobs && id in s.writers && s.writers[id].phase == phase
  }

  predicate Enabled(jobs: Jobs, s: State, step: Step) {
    match step
    case Open(id, inode) => In(jobs, s, id, Trying) && inode !in s.data
    case Discard(id) => In(jobs, s, id, Blocked)
    case Append(id, piece) => In(jobs, s, id, Writing) && s.writers[id].written + piece <= jobs[id].bytes
    case Rename(id) => In(jobs, s, id, Writing) && s.writers[id].written == jobs[id].bytes
    case Abort(id) => In(jobs, s, id, Writing)
    case Crash(id) => id in jobs && id in s.writers && s.writers[id].phase != Finished
  }

  function Goto(s: State, id: Id, phase: Phase): State
    requires id in s.writers
  {
    s.(writers := s.writers[id := s.writers[id].(phase := phase)])
  }

  function Apply(jobs: Jobs, s: State, step: Step): State
    requires Enabled(jobs, s, step)
  {
    var w, temp := s.writers[step.id], Temp(jobs, s, step.id);
    match step
    case Open(id, inode) =>
      if temp in s.names then Goto(s, id, Blocked)
      else State(s.names[temp := inode], s.data[inode := ""],
                 s.writers[id := w.(inode := inode, written := "", phase := Writing)])
    case Discard(id) =>
      var next := w.(attempt := w.attempt + 1, phase := if w.attempt + 1 < MAX_ATTEMPTS then Trying else Dead);
      State(s.names - {temp}, s.data, s.writers[id := next])
    case Append(id, piece) =>
      State(s.names, s.data[w.inode := w.written + piece], s.writers[id := w.(written := w.written + piece)])
    case Rename(id) =>
      if temp !in s.names then Goto(s, id, Dead)
      else Goto(s, id, Finished).(names := (s.names - {temp})[Final(jobs[id].path) := s.names[temp]])
    case Abort(id) => Goto(s, id, Dead).(names := s.names - {temp})
    case Crash(id) => Goto(s, id, Dead)
  }

  /** Any disk, and every writer about to try its first candidate. */
  ghost predicate Starts(jobs: Jobs, s: State) {
    && (forall p :: p in s.names ==> s.names[p] in s.data)
    && s.writers.Keys == jobs.Keys
    && forall id :: id in s.writers ==> s.writers[id].phase == Trying && s.writers[id].attempt == 0
  }

  ghost predicate IsRun(jobs: Jobs, states: seq<State>, steps: seq<Step>) {
    && |states| == |steps| + 1 && Starts(jobs, states[0])
    && forall k :: 0 <= k < |steps| ==> Enabled(jobs, states[k], steps[k]) && states[k + 1] == Apply(jobs, states[k], steps[k])
  }

  // ----- ownership

  /** A writer at work finds its own file under its candidate name. */
  ghost predicate Owns(jobs: Jobs, s: State, id: Id) {
    In(jobs, s, id, Writing) ==>
      && Temp(jobs, s, id) in s.names && s.names[Temp(jobs, s, id)] == s.writers[id].inode
      && s.writers[id].inode in s.data && s.data[s.writers[id].inode] == s.writers[id].written
  }

  ghost predicate AllOwn(jobs: Jobs, s: State) {
    forall id :: id in jobs ==> Owns(jobs, s, id)
  }

  /** The writer has a file of its own: one it writes, or one it has published. */
  predicate HasFile(jobs: Jobs, s: State, id: Id) {
    In(jobs, s, id, Writing) || In(jobs, s, id, Finished)
  }

  ghost predicate NoSharing(jobs: Jobs, s: State) {
    forall a, b :: HasFile(jobs, s, a) && HasFile(jobs, s, b) && a != b ==> s.writers[a].inode != s.writers[b].inode
  }

  /** Files written are new, and published ones complete. */
  ghost predicate FilesSound(jobs: Jobs, start: State, s: State) {
    forall id :: HasFile(jobs, s, id) ==>
      && s.writers[id].inode in s.data && s.writers[id].inode !in start.data
      && s.data[s.writers[id].inode] == s.writers[id].written
      && (s.writers[id].phase == Finished ==> s.writers[id].written == jobs[id].bytes)
  }

  ghost predicate OldKept(start: State, s: State) {
    forall i :: i in start.data ==> i in s.data && s.data[i] == start.data[i]
  }

  /** A final is as it was at the start, or leads to what some writer published. */
  ghost predicate FinalSound(jobs: Jobs, start: State, s: State, path: string) {
    Final(path) in s.names ==>
      || (Final(path) in start.names && s.names[Final(path)] == start.names[Final(path)])
      || exists id :: In(jobs, s, id, Finished) && jobs[id].path == path && s.writers[id].inode == s.names[Final(path)]
  }

  ghost predicate Invariant(jobs: Jobs, start: State, s: State) {
    && s.writers.Keys == jobs.Keys && AllOwn(jobs, s) && NoSharing(jobs, s) && FilesSound(jobs, start, s)
    && OldKept(start, s) && forall path :: FinalSound(jobs, start, s, path)
  }

  /** No two writers share a key, and so a candidate name. */
  ghost predicate DistinctKeys(jobs: Jobs) {
    forall a, b :: a in jobs && b in jobs && a != b ==> jobs[a].key != jobs[b].key
  }

  lemma {:induction false} StepKeepsOwners(jobs: Jobs, start: State, s: State, step: Step)
    requires DistinctKeys(jobs) && Invariant(jobs, start, s) && Enabled(jobs, s, step)
    ensures AllOwn(jobs, Apply(jobs, s, step))
  {
    var s' := Apply(jobs, s, step);
    forall id | id in jobs ensures Owns(jobs, s', id) {
      assert Owns(jobs, s, id) && Owns(jobs, s, step.id);
      assert id != step.id ==> jobs[id].key != jobs[step.id].key && s'.writers[id] == s.writers[id];
    }
  }

  lemma {:induction false} StepKeepsOthers(jobs: Jobs, s: State, step: Step, id: Id)
    requires Enabled(jobs, s, step) && id != step.id
    ensures var s' := Apply(jobs, s, step);
            && HasFile(jobs, s', id) == HasFile(jobs, s, id)
            && (HasFile(jobs, s, id) ==> s'.writers[id] == s.writers[id])
  {
    var s' := Apply(jobs, s, step);
    assert id in s'.writers <==> id in s.writers;
    assert id in s.writers ==> s'.writers[id] == s.writers[id];
  }

  /** A file a writer has after its step it had before, unless it just opened it. */
  lemma {:induction false} StepKeepsOwn(jobs: Jobs, start: State, s: State, step: Step)
    requires Invariant(jobs, start, s) && Enabled(jobs, s, step)
    ensures var s' := Apply(jobs, s, step);
            HasFile(jobs, s', step.id) ==>
              || s'.writers[step.id].inode !in s.data
              || (HasFile(jobs, s, step.id) && s'.writers[step.id].inode == s.writers[step.id].inode)
    ensures var s' := Apply(jobs, s, step);
            HasFile(jobs, s', step.id) ==>
              && s'.writers[step.id].inode in s'.data && s'.writers[step.id].inode !in start.data
              && s'.data[s'.writers[step.id].inode] == s'.writers[step.id].written
              && (s'.writers[step.id].phase == Finished ==> s'.writers[step.id].written == jobs[step.id].bytes)
  {
    assert Owns(jobs, s, step.id);
  }

  lemma {:induction false} StepKeepsNoSharing(jobs: Jobs, start: State, s: State, step: Step)
    requires Invariant(jobs, start, s) && Enabled(jobs, s, step)
    ensures NoSharing(jobs, Apply(jobs, s, step))
  {
    var s' := Apply(jobs, s, step);
    StepKeepsOwn(jobs, start, s, step);
    forall a, b | HasFile(jobs, s', a) && HasFile(jobs, s', b) && a != b ensures s'.writers[a].inode != s'.writers[b].inode {
      if a != step.id { StepKeepsOthers(jobs, s, step, a); }
      if b != step.id { StepKeepsOthers(jobs, s, step, b); }
    }
  }

  lemma {:induction false} StepKeepsData(jobs: Jobs, start: State, s: State, step: Step, inode: Inode)
    requires Invariant(jobs, start, s) && Enabled(jobs, s, step) && inode in s.data
    requires HasFile(jobs, s, step.id) ==> s.writers[step.id].inode != inode
    ensures inode in Apply(jobs, s, step).data && Apply(jobs, s, step).data[inode] == s.data[inode]
  {
  }

  lemma {:induction false} StepKeepsFiles(jobs: Jobs, start: State, s: State, step: Step)
    requires Invariant(jobs, start, s) && Enabled(jobs, s, step)
    ensures FilesSound(jobs, start, Apply(jobs, s, step)) && OldKept(start, Apply(jobs, s, step))
  {
    var s' := Apply(jobs, s, step);
    StepKeepsOwn(jobs, start, s, step);
    forall id | HasFile(jobs, s', id) && id != step.id
      ensures && s'.writers[id].inode in s'.data && s'.writers[id].inode !in start.data
              && s'.data[s'.writers[id].inode] == s'.writers[id].written
              && (s'.writers[id].phase == Finished ==> s'.writers[id].written == jobs[id].bytes)
    {
      StepKeepsOthers(jobs, s, step, id);
      StepKeepsData(jobs, start, s, step, s.writers[id].inode);
    }
    forall i | i in start.data ensures i in s'.data && s'.data[i] == start.data[i] {
      StepKeepsData(jobs, start, s, step, i);
    }
  }

  lemma {:induction false} StepKeepsFinal(jobs: Jobs, start: State, s: State, step: Step, path: string)
    requires Invariant(jobs, start, s) && Enabled(jobs, s, step)
    ensures FinalSound(jobs, start, Apply(jobs, s, step), path)
  {
    var s' := Apply(jobs, s, step);
    assert FinalSound(jobs, start, s, path);
    assert Owns(jobs, s, step.id);
    if Final(path) in s.names && !(Final(path) in start.names && s.names[Final(path)] == start.names[Final(path)]) {
      var id :| In(jobs, s, id, Finished) && jobs[id].path == path && s.writers[id].inode == s.names[Final(path)];
      assert id != step.id && In(jobs, s', id, Finished);
    }
    if step.Rename? && jobs[step.id].path == path {
      assert In(jobs, s', step.id, Finished);
    }
  }

  lemma {:induction false} RunInvariant(jobs: Jobs, states: seq<State>, steps: seq<Step>, i: nat)
    requires DistinctKeys(jobs) && IsRun(jobs, states, steps) && i < |states|
    ensures Invariant(jobs, states[0], states[i])
    decreases i
  {
    if i > 0 {
      RunInvariant(jobs, states, steps, i - 1);
      var s, step := states[i - 1], steps[i - 1];
      StepKeepsOwners(jobs, states[0], s, step);
      StepKeepsNoSharing(jobs, states[0], s, step);
      StepKeepsFiles(jobs, states[0], s, step);
      forall path ensures FinalSound(jobs, states[0], Apply(jobs, s, step), path) {
        StepKeepsFinal(jobs, states[0], s, step, path);
      }
    }
  }

  // ----- exactly when ownership holds

  function Fresh(jobs: Jobs): State {
    State(map[], map[], map id | id in jobs :: Writer(0, 0, "", Trying))
  }

  /** A run in which a writer that shares a key removes another's temporary. */
  lemma {:induction false} SharedKeyLosesTemporary(jobs: Jobs, a: Id, b: Id) returns (states: seq<State>, steps: seq<Step>)
    requires a in jobs && b in jobs && a != b && jobs[a].key == jobs[b].key
    ensures IsRun(jobs, states, steps) && !Owns(jobs, states[|steps|], a)
  {
    var s0 := Fresh(jobs);
    steps := [Open(a, 0), Open(b, 1), Discard(b)];
    var s1 := Apply(jobs, s0, steps[0]);
    var s2 := Apply(jobs, s1, steps[1]);
    var s3 := Apply(jobs, s2, steps[2]);
    states := [s0, s1, s2, s3];
    assert In(jobs, s3, a, Writing) && Temp(jobs, s3, a) !in s3.names;
  }

  /** Writers keep their temporaries in every run if and only if no two of them
      share candidate names. */
  lemma {:induction false} OwnershipIff(jobs: Jobs)
    ensures DistinctKeys(jobs) <==>
            forall states, steps, i :: IsRun(jobs, states, steps) && 0 <= i < |states| ==> AllOwn(jobs, states[i])
  {
    if DistinctKeys(jobs) {
      forall states, steps, i | IsRun(jobs, states, steps) && 0 <= i < |states| ensures AllOwn(jobs, states[i]) {
        RunInvariant(jobs, states, steps, i);
      }
    } else {
      var a, b :| a in jobs && b in jobs && a != b && jobs[a].key == jobs[b].key;
      var states, steps := SharedKeyLosesTemporary(jobs, a, b);
      assert Owns(jobs, states[|steps|], a) ==> false;
    }
  }

  /** With distinct candidates, a secret file holds what it held at the start or
      the complete bytes of some writer, in every state and whatever crashes. */
  lemma {:induction false} SecretIsOldOrComplete(jobs: Jobs, states: seq<State>, steps: seq<Step>, i: nat, path: string)
    requires DistinctKeys(jobs) && IsRun(jobs, states, steps) && i < |states| && Final(path) in states[i].names
    ensures var s, start := states[i], states[0];
            var inode := s.names[Final(path)];
            && inode in s.data
            && (|| (Final(path) in start.names && s.data[inode] == start.data[start.names[Final(path)]])
                || exists id :: id in jobs && jobs[id].path == path && s.data[inode] == jobs[id].bytes)
  {
    RunInvariant(jobs, states, steps, i);
    assert FinalSound(jobs, states[0], states[i], path);
  }

  // ----- a hundred candidates

  lemma {:induction false} StepCountsAttempts(jobs: Jobs, s: State, step: Step, id: Id)
    requires Enabled(jobs, s, step) && id in s.writers
    requires s.writers[id].attempt < 100 || (s.writers[id].attempt == 100 && s.writers[id].phase == Dead)
    ensures var w := Apply(jobs, s, step).writers[id];
            && (w.attempt < 100 || (w.attempt == 100 && w.phase == Dead))
            && (step == Discard(id) ==> w.attempt == s.writers[id].attempt + 1 && (w.phase == Trying <==> w.attempt < 100))
  {
  }

  /** A writer that finds a candidate taken tries the next, up to a hundred. */
  lemma {:induction false} HundredAttempts(jobs: Jobs, states: seq<State>, steps: seq<Step>, i: nat, id: Id)
    requires IsRun(jobs, states, steps) && i < |states| && id in jobs
    ensures id in states[i].writers
    ensures var w := states[i].writers[id];
            && (w.attempt < 100 || (w.attempt == 100 && w.phase == Dead))
            && (i > 0 && steps[i - 1] == Discard(id) ==> (w.phase == Trying <==> w.attempt < 100))
    decreases i
  {
    if i > 0 {
      HundredAttempts(jobs, states, steps, i - 1, id);
      StepCountsAttempts(jobs, states[i - 1], steps[i - 1], id);
    }
  }

  // ----- what is left behind

  /** A candidate name on the disk was there at the start, or a writer at work has it. */
  ghost predicate IsAccounted(jobs: Jobs, start: State, s: State, name: Name) {
    name.Candidate? && name in s.names ==>
      name in start.names || exists id :: In(jobs, s, id, Writing) && Temp(jobs, s, id) == name
  }

  lemma {:induction false} StepAccounts(jobs: Jobs, start: State, s: State, step: Step, name: Name)
    requires Enabled(jobs, s, step) && !step.Crash? && AllOwn(jobs, s)
    requires IsAccounted(jobs, start, s, name)
    ensures IsAccounted(jobs, start, Apply(jobs, s, step), name)
  {
    var s' := Apply(jobs, s, step);
    assert Owns(jobs, s, step.id);
    if name.Candidate? && name in s'.names && name !in start.names {
      if name in s.names {
        var id :| In(jobs, s, id, Writing) && Temp(jobs, s, id) == name;
        assert id != step.id ==> In(jobs, s', id, Writing) && Temp(jobs, s', id) == name;
        assert id == step.id ==> step.Append?;
        assert In(jobs, s', id, Writing) && Temp(jobs, s', id) == name;
      } else {
        assert step.Open? && In(jobs, s', step.id, Writing) && Temp(jobs, s', step.id) == name;
      }
    }
  }

  /** With distinct candidates and no crash, writers leave no temporary behind: every
      candidate name that was not there at the start is that of a writer at work. */
  lemma {:induction false} NoLeftovers(jobs: Jobs, states: seq<State>, steps: seq<Step>, i: nat, name: Name)
    requires DistinctKeys(jobs) && IsRun(jobs, states, steps) && i < |states|
    requires forall k :: 0 <= k < i ==> !steps[k].Crash?
    ensures IsAccounted(jobs, states[0], states[i], name)
    decreases i
  {
    if i > 0 {
      NoLeftovers(jobs, states, steps, i - 1, name);
      RunInvariant(jobs, states, steps, i - 1);
      StepAccounts(jobs, states[0], states[i - 1], steps[i - 1], name);
    }
  }
}
