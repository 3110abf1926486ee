/**
  One hour of the cold tier while files are archived into it, any number of compactions merge its
  files and readers list and read it. Files are immutable; a file's number is the order it was
  written in. Listing, writing and removing one file are single steps.
 */
module Compaction {
  import opened Entries
  import ColdEngine
  import ColdWriter

  datatype Phase =
    | Reading(unread: set<nat>)
    | Writing(todo: seq<set<Position>>)
    | Removing(doomed: set<nat>)

  /** A `mergeFiles` call in flight: what it was given, what it has written, where it is. */
  datatype Job = Job(inputs: set<nat>, outputs: set<nat>, phase: Phase)

  datatype State = State(written: seq<set<Position>>, live: set<nat>, jobs: map<nat, Job>)

  datatype Step =
    | Archive(keys: set<Position>)
    | Start(job: nat, inputs: set<nat>)
    | ReadInput(job: nat, file: nat)
    | Merge(job: nat, plan: seq<set<Position>>)
    | WriteOutput(job: nat)
    | StartRemoving(job: nat)
    | Remove(job: nat, file: nat)
    | End(job: nat)

  function Contents(written: seq<set<Position>>, files: set<nat>): set<Position> {
    set f, k | f in files && f < |written| && k in written[f] :: k
  }

  function Union(sets: seq<set<Position>>): set<Position> {
    if sets == [] then {} else sets[0] + Union(sets[1..])
  }

  predicate Enabled(s: State, step: Step) {
    match step
    case Archive(_) => true
    case Start(j, inputs) => j !in s.jobs && inputs <= s.live && |inputs| >= 2
    // A read of a removed file throws and the merge ends; only a live file can be read.
    case ReadInput(j, f) => j in s.jobs && s.jobs[j].phase.Reading? && f in s.jobs[j].phase.unread && f in s.live
    // Nothing is written before every input has been read to its end.
    case Merge(j, plan) => j in s.jobs && s.jobs[j].phase == Reading({})
                           && Union(plan) == Contents(s.written, s.jobs[j].inputs)
    case WriteOutput(j) => j in s.jobs && s.jobs[j].phase.Writing? && s.jobs[j].phase.todo != []
    case StartRemoving(j) => j in s.jobs && s.jobs[j].phase == Writing([])
    case Remove(j, f) => j in s.jobs && s.jobs[j].phase.Removing? && f in s.jobs[j].phase.doomed
    // A merge may finish, fail on a missing file, or die with its process, at any point.
    case End(j) => j in s.jobs
  }

  function Apply(s: State, step: Step): State
    requires Enabled(s, step)
  {
    var file := |s.written|;
    match step
    case Archive(keys) => s.(written := s.written + [keys], live := s.live + {file})
    case Start(j, inputs) => s.(jobs := s.jobs[j := Job(inputs, {}, Reading(inputs))])
    case ReadInput(j, f) =>
      s.(jobs := s.jobs[j := s.jobs[j].(phase := Reading(s.jobs[j].phase.unread - {f}))])
    case Merge(j, plan) => s.(jobs := s.jobs[j := s.jobs[j].(phase := Writing(plan))])
    case WriteOutput(j) =>
      var todo := s.jobs[j].phase.todo;
      State(s.written + [todo[0]], s.live + {file},
            s.jobs[j := Job(s.jobs[j].inputs, s.jobs[j].outputs + {file}, Writing(todo[1..]))])
    case StartRemoving(j) => s.(jobs := s.jobs[j := s.jobs[j].(phase := Removing(s.jobs[j].inputs))])
    case Remove(j, f) =>
      s.(live := s.live - {f},
         jobs := s.jobs[j := s.jobs[j].(phase := Removing(s.jobs[j].phase.doomed - {f}))])
    case End(j) => s.(jobs := s.jobs - {j})
  }

  const Empty: State := State([], {}, map[])

  /** A run: every interleaving of archiving and compactions, from the empty hour. */
  ghost predicate Run(states: seq<State>, steps: seq<Step>) {
    && |states| == |steps| + 1 && states[0] == Empty
    && forall i :: 0 <= i < |steps| ==> Enabled(states[i], steps[i]) && states[i + 1] == Apply(states[i], steps[i])
  }

  // ---------------------------------------------------------------- the invariant

  ghost predicate GoodJob(s: State, job: Job) {
    && (forall i :: i in job.inputs ==> i < |s.written|)
    && (forall o :: o in job.outputs ==> o < |s.written|)
    && (forall i, o :: i in job.inputs && o in job.outputs ==> i < o)
    && (job.phase.Reading? ==> job.outputs == {})
    && (job.phase.Writing? ==>
          Contents(s.written, job.inputs) <= Contents(s.written, job.outputs) + Union(job.phase.todo))
    && (job.phase.Removing? ==>
          job.phase.doomed <= job.inputs
          && Contents(s.written, job.inputs) <= Contents(s.written, job.outputs))
  }

  /** A key of file `f` is also in a file written later. */
  ghost predicate Superseded(written: seq<set<Position>>, f: nat, k: Position) {
    exists g :: f < g < |written| && k in written[g]
  }

  ghost predicate Inv(s: State) {
    && (forall f :: f in s.live ==> f < |s.written|)
    && (forall j :: j in s.jobs ==> GoodJob(s, s.jobs[j]))
    && (forall f, k :: 0 <= f < |s.written| && f !in s.live && k in s.written[f] ==>
          Superseded(s.written, f, k))
  }

  lemma ContentsGrow(written: seq<set<Position>>, keys: set<Position>, files: set<nat>)
    requires forall f :: f in files ==> f < |written|
    ensures Contents(written + [keys], files) == Contents(written, files)
    ensures Contents(written + [keys], files + {|written|}) == Contents(written, files) + keys
  {
    var more := written + [keys];
    assert forall f :: f in files ==> more[f] == written[f];
    assert more[|written|] == keys;
  }

  lemma SupersededGrows(written: seq<set<Position>>, keys: set<Position>, f: nat, k: Position)
    requires Superseded(written, f, k)
    ensures Superseded(written + [keys], f, k)
  {
    var g :| f < g < |written| && k in written[g];
    assert (written + [keys])[g] == written[g];
  }

  lemma GoodJobGrows(s: State, s2: State, keys: set<Position>, job: Job)
    requires GoodJob(s, job) && s2.written == s.written + [keys]
    ensures GoodJob(s2, job)
  {
    ContentsGrow(s.written, keys, job.inputs);
    ContentsGrow(s.written, keys, job.outputs);
  }

  /** Writing a file keeps every other job good and every removed file superseded. */
  lemma WriteKeeps(s: State, s2: State, keys: set<Position>)
    requires Inv(s) && s2.written == s.written + [keys] && s2.live == s.live + {|s.written|}
    ensures forall j :: j in s.jobs ==> GoodJob(s2, s.jobs[j])
    ensures forall f :: f in s2.live ==> f < |s2.written|
    ensures forall f, k :: 0 <= f < |s2.written| && f !in s2.live && k in s2.written[f] ==>
              Superseded(s2.written, f, k)
  {
    forall j | j in s.jobs ensures GoodJob(s2, s.jobs[j]) { GoodJobGrows(s, s2, keys, s.jobs[j]); }
    forall f, k | 0 <= f < |s2.written| && f !in s2.live && k in s2.written[f]
      ensures Superseded(s2.written, f, k)
    {
      assert s2.written[f] == s.written[f];
      SupersededGrows(s.written, keys, f, k);
    }
  }

  /** What a merge is about to remove is in the files it wrote, all of them later. */
  lemma DoomedIsSuperseded(s: State, job: Job, f: nat, k: Position)
    requires GoodJob(s, job) && job.phase.Removing? && f in job.phase.doomed && k in s.written[f]
    ensures Superseded(s.written, f, k)
  {
    assert k in Contents(s.written, job.inputs);
    var o :| o in job.outputs && o < |s.written| && k in s.written[o];
    assert f < o;
  }

  lemma StepKeeps(s: State, step: Step)
    requires Inv(s) && Enabled(s, step)
    ensures Inv(Apply(s, step))
  {
    var s2 := Apply(s, step);
    match step
    case Archive(keys) => WriteKeeps(s, s2, keys);
    case Start(j, inputs) =>
    case ReadInput(j, f) =>
    case Merge(j, plan) =>
    case WriteOutput(j) => WriteOutputKeeps(s, j);
    case StartRemoving(j) =>
    case Remove(j, f) => RemoveKeeps(s, j, f);
    case End(j) =>
  }

  lemma WriteOutputKeeps(s: State, j: nat)
    requires Inv(s) && Enabled(s, WriteOutput(j))
    ensures Inv(Apply(s, WriteOutput(j)))
  {
    var job, todo := s.jobs[j], s.jobs[j].phase.todo;
    WriteKeeps(s, Apply(s, WriteOutput(j)), todo[0]);
    OutputWritten(s, job);
  }

  /** The merge that wrote an output has that much less to write. */
  lemma OutputWritten(s: State, job: Job)
    requires GoodJob(s, job) && job.phase.Writing? && job.phase.todo != []
    ensures var todo := job.phase.todo;
            GoodJob(State(s.written + [todo[0]], s.live, s.jobs),
                    Job(job.inputs, job.outputs + {|s.written|}, Writing(todo[1..])))
  {
    var todo := job.phase.todo;
    ContentsGrow(s.written, todo[0], job.inputs);
    ContentsGrow(s.written, todo[0], job.outputs);
    assert Union(todo) == todo[0] + Union(todo[1..]);
  }

  lemma RemoveKeeps(s: State, j: nat, f: nat)
    requires Inv(s) && Enabled(s, Remove(j, f))
    ensures Inv(Apply(s, Remove(j, f)))
  {
    var s2 := Apply(s, Remove(j, f));
    forall f2, k | 0 <= f2 < |s2.written| && f2 !in s2.live && k in s2.written[f2]
      ensures Superseded(s2.written, f2, k)
    {
      if f2 == f { DoomedIsSuperseded(s, s.jobs[j], f, k); }
    }
    forall i | i in s2.jobs ensures GoodJob(s2, s2.jobs[i]) { assert GoodJob(s, s.jobs[i]); }
  }

  lemma {:induction false} RunKeeps(states: seq<State>, steps: seq<Step>, i: nat)
    requires Run(states, steps) && i < |states|
    ensures Inv(states[i])
  {
    if i > 0 {
      RunKeeps(states, steps, i - 1);
      StepKeeps(states[i - 1], steps[i - 1]);
    }
  }

  // ---------------------------------------------------------------- what readers see

  ghost function AllKeys(s: State): set<Position> { Union(s.written) }

  lemma {:induction false} UnionMember(sets: seq<set<Position>>, k: Position)
    ensures k in Union(sets) <==> exists f :: 0 <= f < |sets| && k in sets[f]
  {
    if sets != [] {
      UnionMember(sets[1..], k);
      if f :| 0 <= f < |sets| && k in sets[f] { assert f > 0 ==> sets[1..][f - 1] == sets[f]; }
      if f :| 0 <= f < |sets[1..]| && k in sets[1..][f] { assert sets[f + 1] == sets[1..][f]; }
    }
  }

  /** The latest file holding a key is live. */
  lemma {:induction false} LatestIsLive(s: State, f: nat, k: Position) returns (g: nat)
    requires Inv(s) && f < |s.written| && k in s.written[f]
    ensures f <= g < |s.written| && k in s.written[g] && g in s.live
    decreases |s.written| - f
  {
    if f in s.live {
      g := f;
    } else {
      var later :| f < later < |s.written| && k in s.written[later];
      g := LatestIsLive(s, later, k);
    }
  }

  /**
    In every reachable state the live files hold every key ever written, and the last file to hold
    a key is neither removed nor about to be.
   */
  lemma NothingDisappears(states: seq<State>, steps: seq<Step>, i: nat)
    requires Run(states, steps) && i < |states|
    ensures Contents(states[i].written, states[i].live) == AllKeys(states[i])
    ensures forall f, k :: 0 <= f < |states[i].written| && k in states[i].written[f]
                           && !Superseded(states[i].written, f, k) ==>
              f in states[i].live
              && forall j :: j in states[i].jobs && states[i].jobs[j].phase.Removing? ==>
                   f !in states[i].jobs[j].phase.doomed
  {
    var s := states[i];
    RunKeeps(states, steps, i);
    forall k ensures k in Contents(s.written, s.live) <==> k in AllKeys(s) {
      UnionMember(s.written, k);
      if f :| 0 <= f < |s.written| && k in s.written[f] {
        var g := LatestIsLive(s, f, k);
      }
    }
    forall f, j, k | 0 <= f < |s.written| && k in s.written[f] && !Superseded(s.written, f, k)
                     && j in s.jobs && s.jobs[j].phase.Removing?
      ensures f !in s.jobs[j].phase.doomed
    {
      if f in s.jobs[j].phase.doomed { DoomedIsSuperseded(s, s.jobs[j], f, k); }
    }
  }

  lemma {:induction false} KeysGrow(states: seq<State>, steps: seq<Step>, a: nat, b: nat)
    requires Run(states, steps) && a <= b < |states|
    ensures states[a].written <= states[b].written && AllKeys(states[a]) <= AllKeys(states[b])
    decreases b
  {
    if a < b {
      KeysGrow(states, steps, a, b - 1);
      var s, s2 := states[b - 1], states[b];
      assert s2 == Apply(s, steps[b - 1]) && s.written <= s2.written;
    }
    forall k | k in AllKeys(states[a]) ensures k in AllKeys(states[b]) {
      UnionMember(states[a].written, k);
      UnionMember(states[b].written, k);
      var f :| 0 <= f < |states[a].written| && k in states[a].written[f];
      assert states[b].written[f] == states[a].written[f];
    }
  }

  /**
    Reading listed files, each at its own later time: a file removed by then makes the attempt fail,
    and None is a failed attempt.
   */
  ghost function Attempt(states: seq<State>, listed: set<nat>, list: nat, times: map<nat, nat>): Option<set<Position>>
    requires list < |states|
  {
    if forall f :: f in listed ==> f in times && list <= times[f] < |states| && f in states[times[f]].live
    then Some(Contents(states[list].written, listed)) else None
  }

  /** `readHour` without a limit: one retry over a fresh listing; None when it throws. */
  ghost function ReadHour(states: seq<State>, listed: set<nat>, list: nat, times: map<nat, nat>,
                          relisted: set<nat>, relist: nat, retimes: map<nat, nat>): Option<set<Position>>
    requires list <= relist < |states|
  {
    if Attempt(states, listed, list, times).Some? then Attempt(states, listed, list, times)
    else Attempt(states, relisted, relist, retimes)
  }

  /**
    Over listings that are one step, an unlimited read throws or returns every key written before it
    began, whatever runs beside it.
   */
  lemma ReadHourComplete(states: seq<State>, steps: seq<Step>, list: nat, times: map<nat, nat>,
                         relist: nat, retimes: map<nat, nat>)
    requires Run(states, steps) && list <= relist < |states|
    ensures var keys := ReadHour(states, states[list].live, list, times, states[relist].live, relist, retimes);
            keys.Some? ==> AllKeys(states[list]) <= keys.value <= AllKeys(states[relist])
  {
    NothingDisappears(states, steps, list);
    NothingDisappears(states, steps, relist);
    KeysGrow(states, steps, list, relist);
  }

  /** Without a compaction removing files meanwhile, the first attempt succeeds. */
  lemma ReadHourUndisturbed(states: seq<State>, steps: seq<Step>, list: nat, times: map<nat, nat>)
    requires Run(states, steps) && list < |states|
    requires forall f :: f in states[list].live ==> f in times && list <= times[f] < |states|
    requires forall i :: list <= i < |steps| ==> !steps[i].Remove?
    ensures Attempt(states, states[list].live, list, times) == Some(AllKeys(states[list]))
  {
    NothingDisappears(states, steps, list);
    forall f | f in states[list].live ensures f in states[times[f]].live {
      StaysLive(states, steps, list, times[f], f);
    }
  }

  /** The files are read, each at some time after the listing. */
  ghost predicate ReadAfter(states: seq<State>, list: nat, times: map<nat, nat>)
    requires list < |states|
  {
    forall f :: f in states[list].live ==> f in times && list <= times[f] < |states|
  }

  /** A file of the listing was removed before it was read. */
  ghost predicate Vanished(states: seq<State>, list: nat, times: map<nat, nat>, f: nat)
    requires list < |states| && ReadAfter(states, list, times)
  {
    f in states[list].live && f !in states[times[f]].live
  }

  /** A read throws exactly when both attempts meet a removed file; so a retry over a quiet hour succeeds. */
  lemma ReadHourThrows(states: seq<State>, steps: seq<Step>, list: nat, times: map<nat, nat>,
                       relist: nat, retimes: map<nat, nat>)
    requires Run(states, steps) && list <= relist < |states|
    requires ReadAfter(states, list, times) && ReadAfter(states, relist, retimes)
    ensures ReadHour(states, states[list].live, list, times, states[relist].live, relist, retimes) == None <==>
            (exists f :: Vanished(states, list, times, f)) && (exists f :: Vanished(states, relist, retimes, f))
    ensures (forall i :: relist <= i < |steps| ==> !steps[i].Remove?) ==>
              ReadHour(states, states[list].live, list, times, states[relist].live, relist, retimes).Some?
  {
    AttemptFails(states, list, times);
    AttemptFails(states, relist, retimes);
    if forall i :: relist <= i < |steps| ==> !steps[i].Remove? {
      ReadHourUndisturbed(states, steps, relist, retimes);
    }
  }

  lemma AttemptFails(states: seq<State>, list: nat, times: map<nat, nat>)
    requires list < |states| && ReadAfter(states, list, times)
    ensures Attempt(states, states[list].live, list, times) == None <==> exists f :: Vanished(states, list, times, f)
  {
    if f :| Vanished(states, list, times, f) { assert f in states[list].live; }
    if Attempt(states, states[list].live, list, times) == None {
      var f :| f in states[list].live && f !in states[times[f]].live;
      assert Vanished(states, list, times, f);
    }
  }

  lemma {:induction false} StaysLive(states: seq<State>, steps: seq<Step>, a: nat, b: nat, f: nat)
    requires Run(states, steps) && a <= b < |states| && f in states[a].live
    requires forall i :: a <= i < b ==> !steps[i].Remove?
    ensures f in states[b].live
    decreases b
  {
    if a < b {
      StaysLive(states, steps, a, b - 1, f);
      assert states[b] == Apply(states[b - 1], steps[b - 1]);
    }
  }

  // ---------------------------------------------------------------- a listing that is not one step

  /**
    A directory is listed by reading its names and then each file's status; a name that is gone by
    then is dropped. The names are read at `names`, the status of `f` at `times[f]`.
   */
  ghost function DirectoryListing(states: seq<State>, names: nat, times: map<nat, nat>): set<nat>
    requires names < |states|
    requires forall f :: f in states[names].live ==> f in times && names <= times[f] < |states|
  {
    set f | f in states[names].live && f in states[times[f]].live
  }

  /** The statuses of a listing were read by `last`, and meanwhile no merge wrote an output, or none removed a file. */
  ghost predicate Undisturbed(states: seq<State>, steps: seq<Step>, names: nat, times: map<nat, nat>, last: nat) {
    && names <= last < |states| && |states| == |steps| + 1
    && (forall f :: f in states[names].live ==> f in times && names <= times[f] <= last)
    && ((forall i :: names <= i < last ==> !steps[i].WriteOutput?)
        || (forall i :: names <= i < last ==> !steps[i].Remove?))
  }

  /** With no output written, every job's outputs are files there already were. */
  lemma {:induction false} OutputsAreOld(states: seq<State>, steps: seq<Step>, a: nat, b: nat)
    requires Run(states, steps) && a <= b < |states|
    requires forall i :: a <= i < b ==> !steps[i].WriteOutput?
    ensures forall j, o :: j in states[b].jobs && o in states[b].jobs[j].outputs ==> o < |states[a].written|
    decreases b
  {
    if a < b {
      OutputsAreOld(states, steps, a, b - 1);
      assert states[b] == Apply(states[b - 1], steps[b - 1]);
    } else {
      RunKeeps(states, steps, a);
      forall j, o | j in states[a].jobs && o in states[a].jobs[j].outputs ensures o < |states[a].written| {
        assert GoodJob(states[a], states[a].jobs[j]);
      }
    }
  }

  /** The last file to hold a key when the names are read then outlives the listing. */
  lemma {:induction false} LastStays(states: seq<State>, steps: seq<Step>, a: nat, b: nat, g: nat, k: Position)
    requires Run(states, steps) && a <= b < |states| && g < |states[a].written| && k in states[a].written[g]
    requires forall f :: g < f < |states[a].written| ==> k !in states[a].written[f]
    requires forall i :: a <= i < b ==> !steps[i].WriteOutput?
    ensures g in states[b].live
    decreases b
  {
    if a == b {
      NothingDisappears(states, steps, a);
      assert !Superseded(states[a].written, g, k);
    } else {
      LastStays(states, steps, a, b - 1, g, k);
      StepSparesLast(states, steps, a, b - 1, g, k);
    }
  }

  lemma StepSparesLast(states: seq<State>, steps: seq<Step>, a: nat, i: nat, g: nat, k: Position)
    requires Run(states, steps) && a <= i < |steps| && g < |states[a].written| && k in states[a].written[g]
    requires forall f :: g < f < |states[a].written| ==> k !in states[a].written[f]
    requires forall n :: a <= n <= i ==> !steps[n].WriteOutput?
    requires g in states[i].live
    ensures g in states[i + 1].live
  {
    var s, step := states[i], steps[i];
    assert Enabled(s, step) && states[i + 1] == Apply(s, step);
    if step.Remove? && step.file == g {
      RunKeeps(states, steps, i);
      KeysGrow(states, steps, a, i);
      OutputsAreOld(states, steps, a, i);
      var o := DoomedOutput(s, step.job, g, k);
    }
  }

  lemma DoomedOutput(s: State, j: nat, f: nat, k: Position) returns (o: nat)
    requires j in s.jobs && GoodJob(s, s.jobs[j]) && s.jobs[j].phase.Removing? && f in s.jobs[j].phase.doomed
    requires f < |s.written| && k in s.written[f]
    ensures o in s.jobs[j].outputs && f < o < |s.written| && k in s.written[o]
  {
    var job := s.jobs[j];
    assert k in Contents(s.written, job.inputs);
    o :| o in job.outputs && o < |s.written| && k in s.written[o];
  }

  lemma {:induction false} LastHolder(written: seq<set<Position>>, f: nat, k: Position) returns (g: nat)
    requires f < |written| && k in written[f]
    ensures f <= g < |written| && k in written[g] && forall n :: g < n < |written| ==> k !in written[n]
    decreases |written| - f
  {
    if n :| f < n < |written| && k in written[n] { g := LastHolder(written, n, k); } else { g := f; }
  }

  lemma LastListed(states: seq<State>, steps: seq<Step>, names: nat, at: nat, last: nat, g: nat, k: Position)
    requires Run(states, steps) && names <= at <= last < |states| && g < |states[names].written|
    requires g in states[names].live && k in states[names].written[g]
    requires forall f :: g < f < |states[names].written| ==> k !in states[names].written[f]
    requires (forall i :: names <= i < last ==> !steps[i].WriteOutput?)
             || (forall i :: names <= i < last ==> !steps[i].Remove?)
    ensures g in states[at].live
  {
    if forall i :: names <= i < last ==> !steps[i].Remove? {
      StaysLive(states, steps, names, at, g);
    } else {
      LastStays(states, steps, names, at, g, k);
    }
  }

  /**
    Such a listing holds every key there was when the names were read, unless before the last status is
    read a merge writes an output and a file is removed: archiving, and merges that only read, only
    write or only remove, do no harm.
   */
  lemma DirectoryListingComplete(states: seq<State>, steps: seq<Step>, names: nat, times: map<nat, nat>, last: nat)
    requires Run(states, steps) && Undisturbed(states, steps, names, times, last)
    ensures Contents(states[names].written, DirectoryListing(states, names, times)) == AllKeys(states[names])
  {
    var s, listed := states[names], DirectoryListing(states, names, times);
    forall k ensures k in AllKeys(s) <==> k in Contents(s.written, listed) {
      UnionMember(s.written, k);
      if k in AllKeys(s) {
        var f :| 0 <= f < |s.written| && k in s.written[f];
        var g := LastHolder(s.written, f, k);
        LastStays(states, steps, names, names, g, k);
        LastListed(states, steps, names, times[g], last, g, k);
      }
    }
  }

  /** Over such listings too, an unlimited read throws or returns every key, under the same condition. */
  lemma ReadHourFromDirectory(states: seq<State>, steps: seq<Step>, names: nat, status: map<nat, nat>, last: nat,
                              times: map<nat, nat>, names2: nat, status2: map<nat, nat>, last2: nat,
                              times2: map<nat, nat>)
    requires Run(states, steps) && names <= names2
    requires Undisturbed(states, steps, names, status, last) && Undisturbed(states, steps, names2, status2, last2)
    ensures var keys := ReadHour(states, DirectoryListing(states, names, status), names, times,
                                 DirectoryListing(states, names2, status2), names2, times2);
            keys.Some? ==> AllKeys(states[names]) <= keys.value <= AllKeys(states[names2])
  {
    DirectoryListingComplete(states, steps, names, status, last);
    DirectoryListingComplete(states, steps, names2, status2, last2);
    KeysGrow(states, steps, names, names2);
  }

  lemma NothingListed(states: seq<State>, list: nat)
    requires list < |states|
    ensures Attempt(states, {}, list, map[]) == Some({})
  {
    assert Contents(states[list].written, {}) == {};
  }

  lemma Extend(states: seq<State>, steps: seq<Step>, step: Step)
    requires Run(states, steps) && Enabled(states[|steps|], step)
    ensures Run(states + [Apply(states[|steps|], step)], steps + [step])
  {
  }

  /** Two archived files holding the same keys, and a merge that has just written its output. */
  lemma MergedTwins(keys: set<Position>) returns (states: seq<State>, steps: seq<Step>)
    ensures Run(states, steps) && |steps| == 7
    ensures states[2].live == {0, 1} && states[2].written == [keys, keys]
    ensures states[7] == State([keys, keys, keys], {0, 1, 2}, map[0 := Job({0, 1}, {2}, Writing([]))])
  {
    var two := [keys, keys];
    states, steps := [Empty], [];
    Extend(states, steps, Archive(keys));
    states, steps := states + [State([keys], {0}, map[])], steps + [Archive(keys)];
    Extend(states, steps, Archive(keys));
    states, steps := states + [State(two, {0, 1}, map[])], steps + [Archive(keys)];
    MergeTwins(states, steps, keys);
    states := states + MergeStates(keys);
    steps := steps + [Start(0, {0, 1}), ReadInput(0, 0), ReadInput(0, 1), Merge(0, [keys]), WriteOutput(0)];
  }

  function MergeStates(keys: set<Position>): seq<State> {
    var two, live := [keys, keys], {0, 1};
    [State(two, live, map[0 := Job(live, {}, Reading(live))]),
     State(two, live, map[0 := Job(live, {}, Reading({1}))]),
     State(two, live, map[0 := Job(live, {}, Reading({}))]),
     State(two, live, map[0 := Job(live, {}, Writing([keys]))]),
     State([keys, keys, keys], {0, 1, 2}, map[0 := Job(live, {2}, Writing([]))])]
  }

  lemma TwinKeys(keys: set<Position>)
    ensures Contents([keys, keys], {0, 1}) == keys && Union([keys]) == keys
  {
    assert [keys][1..] == [];
    assert 0 in {0, 1} && [keys, keys][0] == keys;
  }

  lemma MergeTwins(states: seq<State>, steps: seq<Step>, keys: set<Position>)
    requires Run(states, steps) && states[|steps|] == State([keys, keys], {0, 1}, map[])
    ensures Run(states + MergeStates(keys),
                steps + [Start(0, {0, 1}), ReadInput(0, 0), ReadInput(0, 1), Merge(0, [keys]), WriteOutput(0)])
  {
    ReadTwins(states[|steps|], keys);
    WriteTwins(keys);
  }

  lemma ReadTwins(s: State, keys: set<Position>)
    requires s == State([keys, keys], {0, 1}, map[])
    ensures var to := MergeStates(keys);
            && Enabled(s, Start(0, {0, 1})) && to[0] == Apply(s, Start(0, {0, 1}))
            && Enabled(to[0], ReadInput(0, 0)) && to[1] == Apply(to[0], ReadInput(0, 0))
            && Enabled(to[1], ReadInput(0, 1)) && to[2] == Apply(to[1], ReadInput(0, 1))
  {
    assert {0, 1} - {0} == {1};
    assert {1} - {1} == {};
  }

  lemma WriteTwins(keys: set<Position>)
    ensures var to := MergeStates(keys);
            && Enabled(to[2], Merge(0, [keys])) && to[3] == Apply(to[2], Merge(0, [keys]))
            && Enabled(to[3], WriteOutput(0)) && to[4] == Apply(to[3], WriteOutput(0))
  {
    TwinKeys(keys);
    var to3 := MergeStates(keys)[3];
    assert Apply(to3, WriteOutput(0)).written == [keys, keys, keys];
    assert Apply(to3, WriteOutput(0)).live == {0, 1, 2};
    assert [keys][1..] == [] && {} + {2} == {2};
    assert Apply(to3, WriteOutput(0)).jobs == map[0 := Job({0, 1}, {2}, Writing([]))];
  }

  /**
    Otherwise it can miss keys although none was lost: a compaction that writes its output after the
    names were read and removes both inputs before their status is read leaves an empty listing, and
    the read over it returns nothing without failing.
   */
  lemma DirectoryListingMisses(k: Position) returns (states: seq<State>, steps: seq<Step>)
    ensures Run(states, steps) && |steps| == 10 && states[2].live == {0, 1}
    ensures DirectoryListing(states, 2, map[0 := 10, 1 := 10]) == {}
    ensures forall relisted, relist: nat, retimes :: 2 <= relist < |states| ==>
              ReadHour(states, {}, 2, map[], relisted, relist, retimes) == Some({})
    ensures k in Contents(states[2].written, states[2].live)
    ensures k in Contents(states[10].written, states[10].live)
  {
    states, steps := MergedTwins({k});
    var s := states[7];
    var s8 := Apply(s, StartRemoving(0));
    var s9 := Apply(s8, Remove(0, 0));
    var s10 := Apply(s9, Remove(0, 1));
    assert s10.live == {2};
    Extend(states, steps, StartRemoving(0));
    Extend(states + [s8], steps + [StartRemoving(0)], Remove(0, 0));
    Extend(states + [s8] + [s9], steps + [StartRemoving(0)] + [Remove(0, 0)], Remove(0, 1));
    assert 0 in states[2].live && k in states[2].written[0];
    assert 2 in s10.live && k in s10.written[2];
    states := states + [s8] + [s9] + [s10];
    steps := steps + [StartRemoving(0)] + [Remove(0, 0)] + [Remove(0, 1)];
    NothingListed(states, 2);
  }

  // ---------------------------------------------------------------- the merge behind the step

  function KeysOf(files: seq<ColdEngine.File>): seq<set<Position>> {
    seq(|files|, i requires 0 <= i < |files| => ColdWriter.Positions(Elems(ColdEngine.Rows(files[i]))))
  }

  lemma {:induction false} UnionOfKeys(files: seq<ColdEngine.File>)
    ensures Union(KeysOf(files)) == ColdWriter.Positions(Elems(ColdWriter.Flat(files)))
  {
    if files != [] {
      UnionOfKeys(files[1..]);
      assert KeysOf(files)[1..] == KeysOf(files[1..]);
      FlatFirst(files);
    }
  }

  lemma FlatFirst(files: seq<ColdEngine.File>)
    requires files != []
    ensures Elems(ColdWriter.Flat(files)) == Elems(ColdEngine.Rows(files[0])) + Elems(ColdWriter.Flat(files[1..]))
  {
    ColdEngine.RowsAppend(files[0], ColdEngine.Groups(files[1..]));
  }

  /** The merge of a job's inputs gives a plan the machine's merge step accepts. */
  method PlanMerge(ghost s: State, ghost job: nat, files: seq<ColdEngine.File>, rowGroupSize: nat, targetBytes: nat,
                   sizeOf: seq<ColdEngine.Group> -> nat)
    returns (outputs: seq<ColdEngine.File>)
    requires rowGroupSize >= 1 && forall file :: file in files ==> ColdEngine.Ascending(ColdEngine.Rows(file))
    requires job in s.jobs && s.jobs[job].phase == Reading({})
    requires Union(KeysOf(files)) == Contents(s.written, s.jobs[job].inputs)
    ensures Enabled(s, Merge(job, KeysOf(outputs)))
  {
    outputs := ColdWriter.MergeFiles(files, rowGroupSize, targetBytes, sizeOf);
    UnionOfKeys(files);
    UnionOfKeys(outputs);
  }
}
