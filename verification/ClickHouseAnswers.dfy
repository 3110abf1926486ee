/** What `markFamilySeen` answers: when a call reports a family as new, and what the other answers mean. */
module ClickHouseAnswers {
  import opened Entries
  import opened ClickHouseSeen

  // ---------------------------------------------------------------- undisturbed calls

  /** The family had never been seen, or not for a window: what the read of `row` says of a call at `now`. */
  predicate NewAt(row: Option<Row>, now: int, window: int) {
    row.None? || now - row.value.last >= window
  }

  /** How a call stands when only its own write took effect since it read `read`. */
  ghost predicate Answering(s: State, c: nat, read: Option<Row>, window: int) {
    && c in s.calls
    && var now := s.calls[c].now;
       match s.calls[c].phase
       case Reading(_) => false
       case Inserting(_) => read.None? && s.row.None?
       case Altering(_, last) => read.Some? && s.row == read && read.value.last == last
       case Committing(_, expired, seen) =>
         s.row == Some(seen) && read == s.row && (expired <==> NewAt(read, now, window))
       case ReadingBack => s.row.Some? && s.row.value.claim == c && NewAt(read, now, window)
       case Done(result, _) => result <==> NewAt(read, now, window)
       case Failed => true
  }

  lemma StaysAnswering(s: State, step: Step, c: nat, read: Option<Row>, window: int)
    requires Enabled(s, step) && Answering(s, c, read, window)
    requires (step.Insert? || step.Commit?) && step.call != c ==> Apply(s, step, window).row == s.row
    ensures Answering(Apply(s, step, window), c, read, window)
  {
  }

  lemma {:induction false} AloneAnswering(states: seq<State>, steps: seq<Step>, window: int, r: nat, t: nat, c: nat)
    requires Run(states, steps, window) && Alone(states, steps, r, t, c)
    ensures Answering(states[t], c, states[r].row, window)
    decreases t
  {
    assert Enabled(states[t - 1], steps[t - 1]) && states[t] == Apply(states[t - 1], steps[t - 1], window);
    if t > r + 1 {
      AloneAnswering(states, steps, window, r, t - 1, c);
      StaysAnswering(states[t - 1], steps[t - 1], c, states[r].row, window);
    }
  }

  /**
    A call undisturbed from its last read on reports the family as new if and only if it had never been
    seen, or was last seen a window or more before.
   */
  lemma AnswerAlone(states: seq<State>, steps: seq<Step>, window: int, r: nat, t: nat, c: nat)
    requires Run(states, steps, window) && Alone(states, steps, r, t, c)
    requires c in states[t].calls && states[t].calls[c].phase.Done?
    ensures Returned(states[t], c, true) <==>
            states[r].row == None || states[t].calls[c].now - states[r].row.value.last >= window
  {
    AloneAnswering(states, steps, window, r, t, c);
  }

  /** Such a call: a family seen at 0 comes back after its window, and its one call reports it as new. */
  lemma ReturningIsNew(window: int, now: int) returns (states: seq<State>, steps: seq<Step>)
    requires 0 < window <= now
    ensures Run(states, steps, window) && |steps| == 8 && Alone(states, steps, 4, 8, 1)
    ensures Returned(states[8], 1, true) && states[8].calls[1].now == now
  {
    states, steps := SeenAtZero(window);
    var done := Call(0, Done(true, Claimed));
    states, steps := Take(states, steps, window, Start(1, now));
    states, steps := Take(states, steps, window, Read(1));
    assert states[5] == State(Some(Row(0, 0, 0)), map[0 := done, 1 := Call(now, Altering(0, 0))], [0], {0});
    states, steps := Take(states, steps, window, AlterRead(1));
    states, steps := Take(states, steps, window, Commit(1, true));
    assert states[7] == State(Some(Row(now, 1, 1)), map[0 := done, 1 := Call(now, ReadingBack)], [0, 1], {0, 1});
    states, steps := Take(states, steps, window, ReadBack(1));
  }

  lemma SeenAtZero(window: int) returns (states: seq<State>, steps: seq<Step>)
    ensures Run(states, steps, window) && |steps| == 3
    ensures states[3] == State(Some(Row(0, 0, 0)), map[0 := Call(0, Done(true, Claimed))], [0], {0})
  {
    states, steps := [Empty], [];
    states, steps := Take(states, steps, window, Start(0, 0));
    states, steps := Take(states, steps, window, Read(0));
    states, steps := Take(states, steps, window, Insert(0, true));
  }

  // ---------------------------------------------------------------- claims and answers

  /** A finished call claimed the family exactly when it says so or was overtaken, and then by a later claim. */
  ghost predicate ClaimTold(s: State, c: nat)
    requires c in s.calls
  {
    match s.calls[c].phase
    case ReadingBack => c in s.writers ==> c in s.claims
    case Done(_, how) =>
      && (c in s.claims <==> how.Claimed? || how.Overtaken?)
      && (how.Overtaken? ==> s.claims[|s.claims| - 1] != c)
    case _ => true
  }

  ghost predicate ClaimsTold(s: State) { forall c :: c in s.calls ==> ClaimTold(s, c) }

  lemma StepTells(s: State, step: Step, window: int)
    requires Inv(s, window) && Enabled(s, step) && ClaimsTold(s)
    ensures ClaimsTold(Apply(s, step, window))
  {
    var s2 := Apply(s, step, window);
    forall d | d in s2.calls ensures ClaimTold(s2, d) {
      if d == step.call { OwnStepTells(s, step, window); } else { OtherStepTells(s, step, window, d); }
    }
  }

  lemma OtherStepTells(s: State, step: Step, window: int, d: nat)
    requires Inv(s, window) && Enabled(s, step) && d in s.calls && d != step.call && ClaimTold(s, d)
    ensures d in Apply(s, step, window).calls && ClaimTold(Apply(s, step, window), d)
  {
    assert CallOK(s, d, window);
  }

  lemma OwnStepTells(s: State, step: Step, window: int)
    requires Inv(s, window) && Enabled(s, step) && (step.call in s.calls ==> ClaimTold(s, step.call))
    ensures step.call in Apply(s, step, window).calls && ClaimTold(Apply(s, step, window), step.call)
  {
    if step.call in s.calls { assert CallOK(s, step.call, window); }
  }

  lemma {:induction false} RunTells(states: seq<State>, steps: seq<Step>, window: int, i: nat)
    requires Run(states, steps, window) && window > 0 && i < |states|
    ensures ClaimsTold(states[i])
  {
    if i > 0 {
      RunTells(states, steps, window, i - 1);
      RunKeeps(states, steps, window, i - 1);
      StepTells(states[i - 1], steps[i - 1], window);
    }
  }

  /**
    A finished call that claimed the family reported it as new, unless a claim at least a window later came
    before it read back; and a call that did not claim it did not report it.
   */
  lemma OvertakenByLater(states: seq<State>, steps: seq<Step>, window: int, i: nat, c: nat)
    requires Run(states, steps, window) && window > 0 && i < |states|
    requires c in states[i].calls && states[i].calls[c].phase.Done?
    ensures var s, how := states[i], states[i].calls[c].phase.how;
            && (c in s.claims <==> Returned(s, c, true) || how.Overtaken?)
            && (how.Overtaken? ==> exists d :: d in s.calls && ClaimedBefore(s, c, d)
                                               && s.calls[d].now - s.calls[c].now >= window)
  {
    var s := states[i];
    RunKeeps(states, steps, window, i);
    RunTells(states, steps, window, i);
    assert CallOK(s, c, window) && ClaimTold(s, c);
    if s.calls[c].phase.how.Overtaken? {
      var m :| 0 <= m < |s.claims| && s.claims[m] == c;
      var n := |s.claims| - 1;
      ClaimsApart(s.claims, s.calls, window, m, n);
      assert ClaimedBefore(s, c, s.claims[n]);
    }
  }

  // ---------------------------------------------------------------- giving up

  /** Each attempt lost cost another call's write since there were `base` writers. */
  ghost predicate Crowded(s: State, c: nat, base: nat) {
    && c in s.calls && base <= |s.writers|
    && Versioned(s)
    && match s.calls[c].phase
       case Reading(a) => a + base <= |s.writers|
       case Inserting(a) => a == 0 && base == 0
       case Altering(a, _) => a + base <= |s.writers|
       case Committing(a, _, seen) => a + base <= seen.version + 1
       case Done(_, how) => how.GaveUp? ==> SEEN_ATTEMPTS + base <= |s.writers|
       case _ => true
  }

  lemma StaysCrowded(s: State, step: Step, window: int, c: nat, base: nat)
    requires Inv(s, window) && Enabled(s, step) && Crowded(s, c, base)
    ensures Crowded(Apply(s, step, window), c, base)
  {
    assert CallOK(s, c, window);
    if step.call in s.calls { assert CallOK(s, step.call, window); }
  }

  /** Every write raises the version by one, and no call writes twice. */
  predicate Versioned(s: State) {
    if s.row.None? then s.writers == {} else |s.writers| == s.row.value.version + 1
  }

  lemma StaysVersioned(s: State, step: Step, window: int)
    requires Inv(s, window) && Enabled(s, step) && Versioned(s)
    ensures Versioned(Apply(s, step, window))
  {
    if step.call in s.calls { assert CallOK(s, step.call, window); }
  }

  lemma {:induction false} VersionCounts(states: seq<State>, steps: seq<Step>, window: int, i: nat)
    requires Run(states, steps, window) && window > 0 && i < |states|
    ensures Versioned(states[i])
  {
    if i > 0 {
      VersionCounts(states, steps, window, i - 1);
      RunKeeps(states, steps, window, i - 1);
      StaysVersioned(states[i - 1], steps[i - 1], window);
    }
  }

  lemma {:induction false} StartedCrowded(states: seq<State>, steps: seq<Step>, window: int, r: nat, t: nat, c: nat,
                                          now: int)
    requires Run(states, steps, window) && window > 0 && r < t < |states| && steps[r] == Start(c, now)
    ensures Crowded(states[t], c, |states[r].writers|)
    decreases t
  {
    if t > r + 1 {
      StartedCrowded(states, steps, window, r, t - 1, c, now);
      NextCrowded(states, steps, window, t - 1, c, |states[r].writers|);
    } else {
      VersionCounts(states, steps, window, r);
      BeginsCrowded(states[r], c, now, window);
    }
  }

  lemma BeginsCrowded(s: State, c: nat, now: int, window: int)
    requires Versioned(s) && Enabled(s, Start(c, now))
    ensures Crowded(Apply(s, Start(c, now), window), c, |s.writers|)
  {
  }

  lemma NextCrowded(states: seq<State>, steps: seq<Step>, window: int, i: nat, c: nat, base: nat)
    requires Run(states, steps, window) && window > 0 && i < |steps| && Crowded(states[i], c, base)
    ensures Crowded(states[i + 1], c, base)
  {
    RunKeeps(states, steps, window, i);
    StaysCrowded(states[i], steps[i], window, c, base);
  }

  /** A call gives up only when at least 20 other calls wrote since it began. */
  lemma GivesUpCrowded(states: seq<State>, steps: seq<Step>, window: int, r: nat, t: nat, c: nat, now: int)
    requires Run(states, steps, window) && window > 0 && r < t < |states| && steps[r] == Start(c, now)
    requires c in states[t].calls && states[t].calls[c].phase.Done? && states[t].calls[c].phase.how.GaveUp?
    ensures |states[t].writers| >= |states[r].writers| + 20 && c !in states[t].writers
  {
    StartedCrowded(states, steps, window, r, t, c, now);
    SightingRecorded(states, steps, window, t, c);
  }

  // ---------------------------------------------------------------- losing

  /** The claiming update of such a call matches no row. */
  predicate MovedOn(s: State, c: nat, window: int)
    requires Enabled(s, AlterRead(c))
  {
    s.calls[c].now - s.calls[c].phase.last >= window && s.row.value.last != s.calls[c].phase.last
  }

  ghost predicate Losing(s: State, c: nat) {
    c in s.calls && c !in s.writers && s.row.Some?
    && (s.calls[c].phase.ReadingBack? || s.calls[c].phase == Done(false, Lost) || s.calls[c].phase.Failed?)
  }

  ghost predicate NotLosing(s: State, c: nat) {
    && c in s.calls
    && match s.calls[c].phase
       case Reading(_) => true
       case Committing(_, _, _) => true
       case ReadingBack => c in s.writers
       case Done(_, how) => !how.Lost?
       case Failed => true
       case _ => false
  }

  lemma StaysLosing(s: State, step: Step, window: int, c: nat)
    requires Inv(s, window) && Enabled(s, step) && step != Read(c)
    ensures Losing(s, c) ==> Losing(Apply(s, step, window), c)
    ensures NotLosing(s, c) ==> NotLosing(Apply(s, step, window), c)
  {
  }

  lemma {:induction false} RunLosing(states: seq<State>, steps: seq<Step>, window: int, q: nat, t: nat, c: nat)
    requires Run(states, steps, window) && window > 0 && q < t < |states| && steps[q] == AlterRead(c)
    requires forall j :: q < j < t ==> steps[j] != Read(c)
    ensures Enabled(states[q], AlterRead(c))
    ensures if MovedOn(states[q], c, window) then Losing(states[t], c) else NotLosing(states[t], c)
    decreases t
  {
    assert Enabled(states[q], steps[q]);
    if t > q + 1 {
      RunLosing(states, steps, window, q, t - 1, c);
      NextLosing(states, steps, window, t - 1, c);
    } else {
      BeginsLosing(states, steps, window, q, c);
    }
  }

  lemma BeginsLosing(states: seq<State>, steps: seq<Step>, window: int, q: nat, c: nat)
    requires Run(states, steps, window) && window > 0 && q < |steps| && steps[q] == AlterRead(c)
    requires Enabled(states[q], AlterRead(c))
    ensures if MovedOn(states[q], c, window) then Losing(states[q + 1], c) else NotLosing(states[q + 1], c)
  {
    RunKeeps(states, steps, window, q);
    assert CallOK(states[q], c, window);
    assert states[q + 1] == Apply(states[q], steps[q], window);
  }

  lemma NextLosing(states: seq<State>, steps: seq<Step>, window: int, i: nat, c: nat)
    requires Run(states, steps, window) && window > 0 && i < |steps| && steps[i] != Read(c)
    ensures Losing(states[i], c) ==> Losing(states[i + 1], c)
    ensures NotLosing(states[i], c) ==> NotLosing(states[i + 1], c)
  {
    RunKeeps(states, steps, window, i);
    StaysLosing(states[i], steps[i], window, c);
  }

  /** A call loses the race exactly when `last_seen` moved on between its read of it and its claiming update. */
  lemma LostExactly(states: seq<State>, steps: seq<Step>, window: int, q: nat, t: nat, c: nat)
    requires Run(states, steps, window) && window > 0 && q < t < |states| && steps[q] == AlterRead(c)
    requires forall j :: q < j < t ==> steps[j] != Read(c)
    requires c in states[t].calls && states[t].calls[c].phase.Done?
    ensures Enabled(states[q], AlterRead(c))
    ensures states[t].calls[c].phase.how.Lost? <==> MovedOn(states[q], c, window)
  {
    RunLosing(states, steps, window, q, t, c);
  }

  /**
    A call can lose to a refresh by a call whose own time is a window or more before it: the family is due,
    no other call reports it, and the answer is still "not new".
   */
  lemma LostToRefresh(window: int, due: int, lately: int) returns (states: seq<State>, steps: seq<Step>)
    requires 0 < lately < window <= due - lately
    ensures Run(states, steps, window)
    ensures var s := states[|steps|];
            && 1 in s.calls && s.calls[1] == Call(due, Done(false, Lost)) && !SeenLately(s, 1, window)
            && s.row.Some? && s.row.value.last == lately && forall d :: Returned(s, d, true) ==> d == 0
  {
    states, steps := TwoReaders(window, due, lately);
    states, steps := Take(states, steps, window, AlterRead(2));
    states, steps := Take(states, steps, window, Commit(2, true));
    states, steps := Take(states, steps, window, AlterRead(1));
    states, steps := Take(states, steps, window, ReadBack(1));
  }
}
