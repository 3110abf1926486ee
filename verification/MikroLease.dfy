/**
  The MikroORM lease on one key: acquiring is a conditional update, then a read, then an insert, each a
  step of its own, interleaved over any number of owners with one call of each in flight.
 */
module MikroLease {
  import opened Entries

  datatype Lease = Lease(owner: nat, expiresAt: int)

  datatype Stage = Updating | Finding | Inserting | Releasing

  datatype Call = Call(now: int, ttl: int, stage: Stage)

  /** `held` is what owners believe: the expiry of the lease each was last granted and has not released. */
  datatype State = State(clock: int, row: Option<Lease>, calls: map<nat, Call>, held: map<nat, int>)

  datatype Step =
    | Tick(to: int)
    | Acquire(owner: nat, now: int, ttl: int)
    | Update(owner: nat)
    | Find(owner: nat)
    | Insert(owner: nat)
    | Release(owner: nat)
    | Delete(owner: nat)
    | Fail(owner: nat)

  const Empty: State := State(0, None, map[], map[])

  /** The conditional update matches an expired row, or the owner's own. */
  predicate Matches(row: Option<Lease>, owner: nat, now: int) {
    row.Some? && (row.value.expiresAt <= now || row.value.owner == owner)
  }

  predicate Enabled(s: State, step: Step) {
    match step
    case Tick(to) => to >= s.clock
    case Acquire(o, _, _) => o !in s.calls
    case Update(o) => o in s.calls && s.calls[o].stage.Updating?
    case Find(o) => o in s.calls && s.calls[o].stage.Finding?
    case Insert(o) => o in s.calls && s.calls[o].stage.Inserting?
    case Release(o) => o !in s.calls
    case Delete(o) => o in s.calls && s.calls[o].stage.Releasing?
    case Fail(o) => o in s.calls
  }

  function Grant(s: State, o: nat): State
    requires o in s.calls
  {
    var expiresAt := s.calls[o].now + s.calls[o].ttl;
    s.(row := Some(Lease(o, expiresAt)), calls := s.calls - {o}, held := s.held[o := expiresAt])
  }

  function Apply(s: State, step: Step): State
    requires Enabled(s, step)
  {
    match step
    case Tick(to) => s.(clock := to)
    case Acquire(o, now, ttl) => s.(calls := s.calls[o := Call(now, ttl, Updating)])
    case Update(o) =>
      if Matches(s.row, o, s.calls[o].now) then Grant(s, o)
      else s.(calls := s.calls[o := s.calls[o].(stage := Finding)])
    case Find(o) =>
      if s.row.Some? then s.(calls := s.calls - {o})
      else s.(calls := s.calls[o := s.calls[o].(stage := Inserting)])
    // The primary key turns a second insert away.
    case Insert(o) => if s.row.Some? then s.(calls := s.calls - {o}) else Grant(s, o)
    case Release(o) => s.(calls := s.calls[o := Call(s.clock, 0, Releasing)])
    case Delete(o) =>
      s.(row := if s.row.Some? && s.row.value.owner == o then None else s.row,
         calls := s.calls - {o}, held := s.held - {o})
    case Fail(o) => s.(calls := s.calls - {o})
  }

  ghost predicate Run(states: seq<State>, steps: seq<Step>) {
    && |states| == |steps| + 1 && states[0] == Empty
    && forall i :: 0 <= i < |steps| ==> Enabled(states[i], steps[i]) && states[i + 1] == Apply(states[i], steps[i])
  }

  /** No caller's clock runs ahead of real time. */
  ghost predicate ClocksBehind(states: seq<State>, steps: seq<Step>) {
    |states| == |steps| + 1
    && forall i :: 0 <= i < |steps| && steps[i].Acquire? ==> steps[i].now <= states[i].clock
  }

  predicate Holds(s: State, o: nat) { o in s.held && s.held[o] > s.clock }

  /** An unexpired, unreleased lease is the row. */
  ghost predicate Inv(s: State) {
    && (forall o :: Holds(s, o) ==> s.row == Some(Lease(o, s.held[o])))
    && (forall o :: o in s.calls ==> s.calls[o].now <= s.clock)
  }

  lemma StepKeeps(s: State, step: Step)
    requires Inv(s) && Enabled(s, step) && (step.Acquire? ==> step.now <= s.clock)
    ensures Inv(Apply(s, step))
  {
    forall o | Holds(Apply(s, step), o) && o in s.held && s.held[o] == Apply(s, step).held[o]
      ensures s.row == Some(Lease(o, s.held[o]))
    {
      assert Holds(s, o);
    }
  }

  lemma {:induction false} RunKeeps(states: seq<State>, steps: seq<Step>, i: nat)
    requires Run(states, steps) && ClocksBehind(states, steps) && i < |states|
    ensures Inv(states[i])
  {
    if i > 0 {
      RunKeeps(states, steps, i - 1);
      StepKeeps(states[i - 1], steps[i - 1]);
    }
  }

  /** At any time at most one owner holds the lease, and the row is that owner's. */
  lemma OneHolder(states: seq<State>, steps: seq<Step>, i: nat, a: nat, b: nat)
    requires Run(states, steps) && ClocksBehind(states, steps) && i < |states|
    requires Holds(states[i], a) && Holds(states[i], b)
    ensures a == b && states[i].row == Some(Lease(a, states[i].held[a]))
  {
    RunKeeps(states, steps, i);
  }

  /** A release, however late, leaves any other owner's row as it is, expired or not, whatever the clocks. */
  lemma LateRelease(states: seq<State>, steps: seq<Step>, i: nat)
    requires Run(states, steps) && i < |steps| && steps[i].Delete?
    requires states[i].row.Some? && states[i].row.value.owner != steps[i].owner
    ensures states[i + 1].row == states[i].row
    ensures forall a :: a != steps[i].owner ==> (Holds(states[i + 1], a) <==> Holds(states[i], a))
  {
    assert states[i + 1] == Apply(states[i], steps[i]);
  }

  /** A release by the row's owner frees the key, whatever the clocks. */
  lemma ReleaseFrees(states: seq<State>, steps: seq<Step>, i: nat, a: nat)
    requires Run(states, steps) && i < |steps| && steps[i] == Delete(a)
    requires states[i].row.Some? && states[i].row.value.owner == a
    ensures states[i + 1].row == None && !Holds(states[i + 1], a)
  {
    assert states[i + 1] == Apply(states[i], steps[i]);
  }

  /** Whatever the clocks, another owner's update takes a held row away exactly when its time is past the expiry. */
  lemma UpdateSteals(states: seq<State>, steps: seq<Step>, i: nat, a: nat)
    requires Run(states, steps) && i < |steps| && steps[i].Update? && steps[i].owner != a
    requires Holds(states[i], a) && states[i].row == Some(Lease(a, states[i].held[a]))
    ensures states[i + 1].row != states[i].row <==> states[i].calls[steps[i].owner].now >= states[i].held[a]
    ensures states[i + 1].row != states[i].row <==>
              states[i + 1].row.Some? && states[i + 1].row.value.owner == steps[i].owner
  {
    assert states[i + 1] == Apply(states[i], steps[i]);
  }

  /** A held lease is only lost to its owner's own steps or to time. */
  lemma HolderKeeps(states: seq<State>, steps: seq<Step>, i: nat, a: nat)
    requires Run(states, steps) && ClocksBehind(states, steps) && i < |steps|
    requires Holds(states[i], a) && !Holds(states[i + 1], a)
    ensures (steps[i].Tick? && steps[i].to >= states[i].held[a]) || steps[i] == Delete(a) || steps[i] == Update(a)
  {
    RunKeeps(states, steps, i);
    assert states[i + 1] == Apply(states[i], steps[i]);
  }

  lemma Extend(states: seq<State>, steps: seq<Step>, step: Step)
    requires Run(states, steps) && Enabled(states[|steps|], step)
    ensures Run(states + [Apply(states[|steps|], step)], steps + [step])
  {
  }

  lemma Take(states: seq<State>, steps: seq<Step>, step: Step) returns (states2: seq<State>, steps2: seq<Step>)
    requires Run(states, steps) && Enabled(states[|steps|], step)
    ensures Run(states2, steps2) && |steps2| == |steps| + 1 && states <= states2 && steps2 == steps + [step]
    ensures states2[|steps2|] == Apply(states[|steps|], step)
  {
    Extend(states, steps, step);
    states2, steps2 := states + [Apply(states[|steps|], step)], steps + [step];
  }

  /** Owner 0 has acquired a free key at 0. */
  lemma FirstAcquired(ttl: int) returns (states: seq<State>, steps: seq<Step>)
    ensures Run(states, steps) && steps == [Acquire(0, 0, ttl), Update(0), Find(0), Insert(0)]
    ensures states[4] == State(0, Some(Lease(0, ttl)), map[], map[0 := ttl])
  {
    states, steps := [Empty], [];
    states, steps := Take(states, steps, Acquire(0, 0, ttl));
    states, steps := Take(states, steps, Update(0));
    states, steps := Take(states, steps, Find(0));
    states, steps := Take(states, steps, Insert(0));
    assert states[|steps|] == State(0, Some(Lease(0, ttl)), map[], map[0 := ttl]);
  }

  /** A caller whose clock is far enough ahead takes over a lease that is still held. */
  lemma FastClockSteals(ttl: int) returns (states: seq<State>, steps: seq<Step>)
    requires ttl > 0
    ensures Run(states, steps) && Holds(states[|steps|], 0) && Holds(states[|steps|], 1)
  {
    states, steps := FirstAcquired(ttl);
    states, steps := Take(states, steps, Acquire(1, ttl, ttl));
    states, steps := Take(states, steps, Update(1));
  }

  /** Between states `i` and `t` no step of another owner changes the row, and `o` makes one call only. */
  ghost predicate Alone(states: seq<State>, steps: seq<Step>, i: nat, t: nat, o: nat) {
    && i < t <= |steps| && |states| == |steps| + 1 && steps[i].Acquire? && steps[i].owner == o
    && (forall j :: i < j < t && !steps[j].Tick? && steps[j].owner != o ==> states[j + 1].row == states[j].row)
    && (forall j :: i < j < t && !steps[j].Tick? && steps[j].owner == o ==>
          steps[j].Update? || steps[j].Find? || steps[j].Insert?)
  }

  /** How far such a call is: in flight over the row it may take, or over with its lease in the row. */
  ghost predicate OnTrack(s: State, o: nat, now: int, ttl: int) {
    if o in s.calls then
      && s.calls[o].now == now && s.calls[o].ttl == ttl && !s.calls[o].stage.Releasing?
      && (s.row.None? || (s.calls[o].stage.Updating? && Matches(s.row, o, now)))
    else
      s.row == Some(Lease(o, now + ttl)) && o in s.held && s.held[o] == now + ttl
  }

  lemma StaysOnTrack(s: State, step: Step, o: nat, now: int, ttl: int)
    requires Enabled(s, step) && OnTrack(s, o, now, ttl)
    requires !step.Tick? && step.owner != o ==> Apply(s, step).row == s.row
    requires !step.Tick? && step.owner == o ==> step.Update? || step.Find? || step.Insert?
    ensures OnTrack(Apply(s, step), o, now, ttl)
  {
  }

  /**
    A call undisturbed from its start ends with the lease, if the key was free, expired by its clock,
    or its own already.
   */
  lemma {:induction false} AcquireAlone(states: seq<State>, steps: seq<Step>, i: nat, t: nat, o: nat)
    requires Run(states, steps) && Alone(states, steps, i, t, o)
    requires states[i].row.None? || Matches(states[i].row, o, steps[i].now)
    ensures OnTrack(states[t], o, steps[i].now, steps[i].ttl)
    decreases t
  {
    assert Enabled(states[t - 1], steps[t - 1]) && states[t] == Apply(states[t - 1], steps[t - 1]);
    if t > i + 1 {
      AcquireAlone(states, steps, i, t - 1, o);
      StaysOnTrack(states[t - 1], steps[t - 1], o, steps[i].now, steps[i].ttl);
    }
  }

  /** The row is left alone from state `i` to state `t`. */
  lemma {:induction false} RowStays(states: seq<State>, i: nat, t: nat)
    requires i <= t < |states| && forall j :: i <= j < t ==> states[j + 1].row == states[j].row
    ensures states[t].row == states[i].row
    decreases t
  {
    if i < t { RowStays(states, i, t - 1); }
  }

  /** After a release the next owner to call, undisturbed, is granted the lease, whatever its clock says. */
  lemma ReleasedIsGranted(states: seq<State>, steps: seq<Step>, i: nat, a: nat, k: nat, t: nat, o: nat)
    requires Run(states, steps) && i < |steps| && steps[i] == Delete(a)
    requires states[i].row.Some? && states[i].row.value.owner == a
    requires i < k && Alone(states, steps, k, t, o) && forall j :: i < j < k ==> states[j + 1].row == states[j].row
    requires o !in states[t].calls
    ensures states[t].row == Some(Lease(o, steps[k].now + steps[k].ttl))
    ensures o in states[t].held && states[t].held[o] == steps[k].now + steps[k].ttl
  {
    ReleaseFrees(states, steps, i, a);
    RowStays(states, i + 1, k);
    AcquireAlone(states, steps, k, t, o);
  }

  /** An update is refused exactly by another owner's row, unexpired by the caller's clock, and then changes nothing. */
  lemma RefusedByLease(states: seq<State>, steps: seq<Step>, i: nat, o: nat)
    requires Run(states, steps) && i < |steps| && steps[i].Update? && steps[i].owner == o
    requires states[i].row.Some?
    ensures o in states[i + 1].calls <==>
            states[i].row.value.owner != o && states[i].row.value.expiresAt > states[i].calls[o].now
    ensures o in states[i + 1].calls ==> states[i + 1].row == states[i].row
  {
    assert states[i + 1] == Apply(states[i], steps[i]);
  }

  /** Such a run: owner 0 releases, and owner 1 acquires. */
  lemma FreeKeyGranted(ttl: int, now: int) returns (states: seq<State>, steps: seq<Step>)
    ensures Run(states, steps) && |steps| == 10 && steps[5] == Delete(0) && states[5].row == Some(Lease(0, ttl))
    ensures Alone(states, steps, 6, 10, 1) && 1 !in states[10].calls
    ensures states[10].row == Some(Lease(1, now + ttl))
  {
    states, steps := FirstAcquired(ttl);
    states, steps := Take(states, steps, Release(0));
    states, steps := Take(states, steps, Delete(0));
    assert states[6] == State(0, None, map[], map[]);
    states, steps := Take(states, steps, Acquire(1, now, ttl));
    states, steps := Take(states, steps, Update(1));
    states, steps := Take(states, steps, Find(1));
    states, steps := Take(states, steps, Insert(1));
  }
}
