/**
  `markFamilySeen` on a KeeperMap row shared by any number of pods, for one family: every
  interleaving of the calls' reads, inserts, conditional updates and read-backs.
 */
module ClickHouseSeen {
  import opened Entries

  const SEEN_ATTEMPTS: nat := 20

  /** `version` is Keeper's: it grows with every write, and a write names the one it read. */
  datatype Row = Row(last: int, claim: nat, version: nat)

  /**
    How a call came to its answer: it claimed the family; it claimed it and was overtaken before it read
    back; it refreshed a family seen lately; another call claimed it first; it lost every attempt.
   */
  datatype How = Claimed | Overtaken | Refreshed | Lost | GaveUp

  datatype Phase =
    | Reading(attempt: nat)
    | Inserting(attempt: nat)
    | Altering(attempt: nat, last: int)
    | Committing(attempt: nat, expired: bool, seen: Row)
    | ReadingBack
    | Done(result: bool, how: How)
    | Failed

  /** A call in flight or over; its number stands for its random claim token. */
  datatype Call = Call(now: int, phase: Phase)

  /** `claims` lists the calls that stamped their token, in order; `writers` every call that wrote. */
  datatype State = State(row: Option<Row>, calls: map<nat, Call>, claims: seq<nat>, writers: set<nat>)

  datatype Step =
    | Start(call: nat, now: int)
    | Read(call: nat)
    // A write that takes effect may still fail for its caller: it is not acknowledged.
    | Insert(call: nat, acked: bool)
    | AlterRead(call: nat)
    | Commit(call: nat, acked: bool)
    | ReadBack(call: nat)
    | Fail(call: nat)

  const Empty: State := State(None, map[], [], {})

  predicate Expired(now: int, last: int, window: int) { now - last >= window }

  predicate Enabled(s: State, step: Step) {
    match step
    case Start(c, _) => c !in s.calls
    case Read(c) => c in s.calls && s.calls[c].phase.Reading?
    case Insert(c, _) => c in s.calls && s.calls[c].phase.Inserting?
    // Rows are never deleted, so one that was read is still there.
    case AlterRead(c) => c in s.calls && s.calls[c].phase.Altering? && s.row.Some?
    case Commit(c, _) => c in s.calls && s.calls[c].phase.Committing? && s.row.Some?
    case ReadBack(c) => c in s.calls && s.calls[c].phase.ReadingBack? && s.row.Some?
    case Fail(c) => c in s.calls && !s.calls[c].phase.Done?
  }

  /** A Keeper conflict: the next attempt, or "not new" after the last. */
  function Retry(attempt: nat): Phase {
    if attempt + 1 < SEEN_ATTEMPTS then Reading(attempt + 1) else Done(false, GaveUp)
  }

  function Go(s: State, c: nat, phase: Phase): State
    requires c in s.calls
  {
    s.(calls := s.calls[c := s.calls[c].(phase := phase)])
  }

  function Apply(s: State, step: Step, window: int): State
    requires Enabled(s, step)
  {
    match step
    case Start(c, now) => s.(calls := s.calls[c := Call(now, Reading(0))])
    case Read(c) =>
      var a := s.calls[c].phase.attempt;
      Go(s, c, if s.row.None? then Inserting(a) else Altering(a, s.row.value.last))
    case Insert(c, acked) =>
      if s.row.Some? then Go(s, c, Retry(s.calls[c].phase.attempt))
      else
        Go(s, c, if acked then Done(true, Claimed) else Failed)
        .(row := Some(Row(s.calls[c].now, c, 0)), claims := s.claims + [c], writers := s.writers + {c})
    case AlterRead(c) =>
      var call, row := s.calls[c], s.row.value;
      var expired := Expired(call.now, call.phase.last, window);
      // The claiming update names the `last_seen` that was read: when it moved on, no row matches.
      if expired && row.last != call.phase.last then Go(s, c, ReadingBack)
      else Go(s, c, Committing(call.phase.attempt, expired, row))
    case Commit(c, acked) =>
      var call, row := s.calls[c], s.row.value;
      var phase := call.phase;
      if row.version != phase.seen.version then Go(s, c, Retry(phase.attempt))
      else if phase.expired then
        Go(s, c, if acked then ReadingBack else Failed)
        .(row := Some(Row(call.now, c, row.version + 1)), claims := s.claims + [c], writers := s.writers + {c})
      else
        Go(s, c, if acked then Done(false, Refreshed) else Failed)
        .(row := Some(Row(Max(phase.seen.last, call.now), phase.seen.claim, row.version + 1)),
          writers := s.writers + {c})
    case ReadBack(c) =>
      Go(s, c, if s.row.value.claim == c then Done(true, Claimed)
               else if c in s.writers then Done(false, Overtaken) else Done(false, Lost))
    case Fail(c) => Go(s, c, Failed)
  }

  function Max(a: int, b: int): int { if a > b then a else b }

  ghost predicate Run(states: seq<State>, steps: seq<Step>, window: int) {
    && |states| == |steps| + 1 && states[0] == Empty
    && forall i :: 0 <= i < |steps| ==>
         Enabled(states[i], steps[i]) && states[i + 1] == Apply(states[i], steps[i], window)
  }

  // ---------------------------------------------------------------- the invariant

  /** Successive claims are at least a window apart. */
  ghost predicate Spaced(claims: seq<nat>, calls: map<nat, Call>, window: int) {
    && (forall c :: c in claims ==> c in calls)
    && (forall i :: 0 <= i < |claims| - 1 ==> calls[claims[i + 1]].now - calls[claims[i]].now >= window)
  }

  /** Another call that wrote, at the given time. */
  ghost predicate WroteAt(s: State, c: nat, last: int) {
    exists w :: w in s.writers && w in s.calls && w != c && s.calls[w].now == last
  }

  /** Another call that wrote, less than a window before this one. */
  ghost predicate SeenLately(s: State, c: nat, window: int)
    requires c in s.calls
  {
    exists w :: w in s.writers && w in s.calls && w != c && s.calls[c].now - s.calls[w].now < window
  }

  predicate Wrote(how: How) { how.Claimed? || how.Overtaken? || how.Refreshed? }

  ghost predicate CallOK(s: State, c: nat, window: int)
    requires c in s.calls
  {
    var call := s.calls[c];
    match call.phase
    case Reading(_) => c !in s.writers
    case Inserting(_) => c !in s.writers
    case Altering(_, last) => c !in s.writers && s.row.Some? && WroteAt(s, c, last)
    case Committing(_, expired, seen) =>
      && c !in s.writers && s.row.Some? && seen.version <= s.row.value.version
      && (seen.version == s.row.value.version ==> seen == s.row.value)
      && (if expired then Expired(call.now, seen.last, window) else SeenLately(s, c, window))
    case ReadingBack => s.row.Some?
    case Done(result, how) =>
      && s.row.Some? && (result <==> how == Claimed) && (result ==> c in s.claims)
      && (c in s.writers <==> Wrote(how)) && (how.Refreshed? ==> SeenLately(s, c, window))
    case Failed => true
  }

  ghost predicate RowOK(s: State) {
    && (s.row.None? <==> s.claims == []) && (s.row.None? ==> s.writers == {})
    && (forall w :: w in s.writers ==> w in s.calls)
    && (forall c :: c in s.claims ==> c in s.writers)
    && (s.row.Some? ==>
          && s.row.value.claim == s.claims[|s.claims| - 1]
          && (forall w :: w in s.writers ==> s.calls[w].now <= s.row.value.last)
          && (exists w :: w in s.writers && s.calls[w].now == s.row.value.last))
  }

  /** The first claim was an insert, which reports at once, if its caller heard of it. */
  ghost predicate FirstOK(s: State) {
    s.claims != [] && s.claims[0] in s.calls ==>
      s.calls[s.claims[0]].phase == Done(true, Claimed) || s.calls[s.claims[0]].phase.Failed?
  }

  ghost predicate Inv(s: State, window: int) {
    && RowOK(s) && Spaced(s.claims, s.calls, window) && FirstOK(s) && Distinct(s.claims)
    && forall c :: c in s.calls ==> CallOK(s, c, window)
  }

  /** No call's time changes, and no write is forgotten. */
  ghost predicate SameTimes(s: State, s2: State) {
    s.writers <= s2.writers && forall d :: d in s.calls ==> d in s2.calls && s2.calls[d].now == s.calls[d].now
  }

  lemma WritersKeep(s: State, s2: State, d: nat, window: int)
    requires SameTimes(s, s2) && d in s.calls
    ensures forall last :: WroteAt(s, d, last) ==> WroteAt(s2, d, last)
    ensures SeenLately(s, d, window) ==> SeenLately(s2, d, window)
  {
    forall last | WroteAt(s, d, last) ensures WroteAt(s2, d, last) {
      var w :| w in s.writers && w in s.calls && w != d && s.calls[w].now == last;
      assert w in s2.writers && s2.calls[w].now == last;
    }
    if SeenLately(s, d, window) {
      var w :| w in s.writers && w in s.calls && w != d && s.calls[d].now - s.calls[w].now < window;
      assert w in s2.writers && s2.calls[d].now - s2.calls[w].now < window;
    }
  }

  /** A call's own step changes no other call's standing. */
  lemma CallsKeep(s: State, s2: State, c: nat, window: int)
    requires Inv(s, window) && c in s2.calls && SameTimes(s, s2) && s2.writers <= s.writers + {c}
    requires forall d :: d in s2.calls && d != c ==> d in s.calls && s2.calls[d] == s.calls[d]
    requires s.row.Some? ==> s2.row.Some? && s2.row.value.version >= s.row.value.version
    requires s.row.Some? && s2.row.value.version == s.row.value.version ==> s2.row == s.row
    requires s2.claims == s.claims || s2.claims == s.claims + [c]
    ensures forall d :: d in s2.calls && d != c ==> CallOK(s2, d, window)
  {
    forall d | d in s2.calls && d != c ensures CallOK(s2, d, window) {
      assert CallOK(s, d, window);
      WritersKeep(s, s2, d, window);
      assert d in s2.claims <==> d in s.claims;
    }
  }

  /** A step that writes nothing keeps the invariant if it leaves its own call in good standing. */
  lemma QuietKeeps(s: State, c: nat, call: Call, window: int)
    requires Inv(s, window) && CallOK(s.(calls := s.calls[c := call]), c, window)
    requires c in s.calls ==> call.now == s.calls[c].now && !s.calls[c].phase.Done?
    requires c in s.calls && s.calls[c].phase.Failed? ==> call.phase.Failed?
    ensures Inv(s.(calls := s.calls[c := call]), window)
  {
    var s2 := s.(calls := s.calls[c := call]);
    CallsKeep(s, s2, c, window);
    QuietRow(s, s2);
  }

  lemma QuietRow(s: State, s2: State)
    requires RowOK(s) && SameTimes(s, s2) && s2.row == s.row && s2.writers == s.writers && s2.claims == s.claims
    ensures RowOK(s2)
  {
    if s.row.Some? {
      var w :| w in s.writers && s.calls[w].now == s.row.value.last;
      assert w in s2.writers && s2.calls[w].now == s2.row.value.last;
    }
  }

  /** Where a call stands after its own step, from where it stood before. */
  lemma OwnStanding(s: State, c: nat, call: Call, window: int)
    requires c in s.calls && call.now == s.calls[c].now
    ensures var s2 := s.(calls := s.calls[c := call]);
            && (forall last :: WroteAt(s, c, last) ==> WroteAt(s2, c, last))
            && (SeenLately(s, c, window) ==> SeenLately(s2, c, window))
  {
    WritersKeep(s, s.(calls := s.calls[c := call]), c, window);
  }

  lemma ReadKeeps(s: State, c: nat, window: int)
    requires Inv(s, window) && Enabled(s, Read(c)) && window > 0
    ensures Inv(Apply(s, Read(c), window), window)
  {
    var call := Apply(s, Read(c), window).calls[c];
    assert CallOK(s, c, window);
    if s.row.Some? {
      var w :| w in s.writers && s.calls[w].now == s.row.value.last;
      assert WroteAt(s, c, s.row.value.last);
      OwnStanding(s, c, call, window);
    }
    QuietKeeps(s, c, call, window);
  }

  lemma AlterReadKeeps(s: State, c: nat, window: int)
    requires Inv(s, window) && Enabled(s, AlterRead(c)) && window > 0
    ensures Inv(Apply(s, AlterRead(c), window), window)
  {
    var call := Apply(s, AlterRead(c), window).calls[c];
    assert CallOK(s, c, window);
    var last := s.calls[c].phase.last;
    if !Expired(s.calls[c].now, last, window) {
      var w :| w in s.writers && w in s.calls && w != c && s.calls[w].now == last;
      assert SeenLately(s, c, window);
    }
    OwnStanding(s, c, call, window);
    QuietKeeps(s, c, call, window);
  }

  lemma InsertKeeps(s: State, c: nat, acked: bool, window: int)
    requires Inv(s, window) && Enabled(s, Insert(c, acked)) && window > 0
    ensures Inv(Apply(s, Insert(c, acked), window), window)
  {
    var s2 := Apply(s, Insert(c, acked), window);
    assert CallOK(s, c, window);
    if s.row.None? {
      CallsKeep(s, s2, c, window);
      InsertedRow(s, c, acked, window);
    } else {
      QuietKeeps(s, c, s2.calls[c], window);
    }
  }

  lemma InsertedRow(s: State, c: nat, acked: bool, window: int)
    requires Inv(s, window) && Enabled(s, Insert(c, acked)) && s.row.None?
    ensures var s2 := Apply(s, Insert(c, acked), window);
            && RowOK(s2) && Spaced(s2.claims, s2.calls, window) && FirstOK(s2) && Distinct(s2.claims)
            && CallOK(s2, c, window)
  {
    var s2 := Apply(s, Insert(c, acked), window);
    assert s2.claims == [c] && s2.writers == {c};
    assert s2.calls[c].now == s2.row.value.last;
  }

  lemma CommitKeeps(s: State, c: nat, acked: bool, window: int)
    requires Inv(s, window) && Enabled(s, Commit(c, acked)) && window > 0
    ensures Inv(Apply(s, Commit(c, acked), window), window)
  {
    var s2, phase := Apply(s, Commit(c, acked), window), s.calls[c].phase;
    assert CallOK(s, c, window);
    if s.row.value.version != phase.seen.version {
      QuietKeeps(s, c, s2.calls[c], window);
    } else if phase.expired {
      ClaimKeeps(s, c, acked, window);
    } else {
      RefreshKeeps(s, c, acked, window);
    }
  }

  lemma ClaimKeeps(s: State, c: nat, acked: bool, window: int)
    requires Inv(s, window) && Enabled(s, Commit(c, acked)) && window > 0
    requires s.row.value.version == s.calls[c].phase.seen.version && s.calls[c].phase.expired
    ensures Inv(Apply(s, Commit(c, acked), window), window)
  {
    var s2 := Apply(s, Commit(c, acked), window);
    assert CallOK(s, c, window);
    CallsKeep(s, s2, c, window);
    ClaimSpaced(s, s2, c, window);
    FirstStays(s, c, acked, window);
    WroteRow(s, s2, c, c);
    ClaimedOK(s, c, acked, window);
  }

  lemma ClaimedOK(s: State, c: nat, acked: bool, window: int)
    requires Inv(s, window) && Enabled(s, Commit(c, acked))
    requires s.row.value.version == s.calls[c].phase.seen.version && s.calls[c].phase.expired
    ensures CallOK(Apply(s, Commit(c, acked), window), c, window)
  {
  }

  lemma FirstStays(s: State, c: nat, acked: bool, window: int)
    requires Inv(s, window) && Enabled(s, Commit(c, acked))
    ensures FirstOK(Apply(s, Commit(c, acked), window))
  {
    assert CallOK(s, c, window);
    assert s.claims != [] && s.claims[0] in s.claims;
    assert s.claims[0] in s.calls;
  }

  lemma RefreshKeeps(s: State, c: nat, acked: bool, window: int)
    requires Inv(s, window) && Enabled(s, Commit(c, acked)) && window > 0
    requires s.row.value.version == s.calls[c].phase.seen.version && !s.calls[c].phase.expired
    ensures Inv(Apply(s, Commit(c, acked), window), window)
  {
    var s2 := Apply(s, Commit(c, acked), window);
    assert CallOK(s, c, window);
    CallsKeep(s, s2, c, window);
    RefreshedOK(s, c, acked, window);
    SameClaims(s, s2, c, window);
    var w :| w in s.writers && s.calls[w].now == s.row.value.last;
    WroteRow(s, s2, c, if s.calls[c].now >= s.row.value.last then c else w);
  }

  lemma RefreshedOK(s: State, c: nat, acked: bool, window: int)
    requires Inv(s, window) && Enabled(s, Commit(c, acked))
    requires s.row.value.version == s.calls[c].phase.seen.version && !s.calls[c].phase.expired
    ensures CallOK(Apply(s, Commit(c, acked), window), c, window)
  {
    assert CallOK(s, c, window);
    WritersKeep(s, Apply(s, Commit(c, acked), window), c, window);
  }

  lemma SameClaims(s: State, s2: State, c: nat, window: int)
    requires Inv(s, window) && SameTimes(s, s2) && s2.claims == s.claims && c !in s.claims && s.row.Some?
    requires forall d :: d in s2.calls && d != c ==> d in s.calls && s2.calls[d] == s.calls[d]
    ensures Spaced(s2.claims, s2.calls, window) && FirstOK(s2)
  {
    assert s.claims[0] in s.claims;
    assert forall i :: 0 <= i < |s.claims| ==> s.claims[i] in s.claims;
  }

  /** A write leaves the row with the latest time of the writers. */
  lemma WroteRow(s: State, s2: State, c: nat, w: nat)
    requires RowOK(s) && s.row.Some? && c in s.calls && SameTimes(s, s2)
    requires s2.writers == s.writers + {c} && s2.row.Some?
    requires s2.claims == s.claims + [c] || s2.claims == s.claims
    requires s2.row.value.claim == if s2.claims == s.claims then s.row.value.claim else c
    requires s.row.value.last <= s2.row.value.last && s.calls[c].now <= s2.row.value.last
    requires w in s2.writers && w in s.calls && s.calls[w].now == s2.row.value.last
    ensures RowOK(s2)
  {
    assert w in s2.writers && s2.calls[w].now == s2.row.value.last;
  }

  lemma ClaimSpaced(s: State, s2: State, c: nat, window: int)
    requires Inv(s, window) && c in s.calls && c !in s.claims && s.row.Some?
    requires s2.claims == s.claims + [c] && Expired(s.calls[c].now, s.row.value.last, window)
    requires forall d :: d in s.calls ==> d in s2.calls && s2.calls[d].now == s.calls[d].now
    ensures Spaced(s2.claims, s2.calls, window) && Distinct(s2.claims)
  {
    var last := s.claims[|s.claims| - 1];
    assert last in s.claims && last in s.writers;
    forall i | 0 <= i < |s2.claims| - 1
      ensures s2.calls[s2.claims[i + 1]].now - s2.calls[s2.claims[i]].now >= window
    {
      assert s2.claims[i] == s.claims[i] && s.claims[i] in s.claims;
      if i + 1 < |s.claims| { assert s2.claims[i + 1] == s.claims[i + 1] && s.claims[i + 1] in s.claims; }
    }
  }

  lemma StepKeeps(s: State, step: Step, window: int)
    requires Inv(s, window) && Enabled(s, step) && window > 0
    ensures Inv(Apply(s, step, window), window)
  {
    var s2 := Apply(s, step, window);
    match step
    case Start(c, now) => QuietKeeps(s, c, s2.calls[c], window);
    case Read(c) => ReadKeeps(s, c, window);
    case Insert(c, acked) => InsertKeeps(s, c, acked, window);
    case AlterRead(c) => AlterReadKeeps(s, c, window);
    case Commit(c, acked) => CommitKeeps(s, c, acked, window);
    case ReadBack(c) => assert CallOK(s, c, window); QuietKeeps(s, c, s2.calls[c], window);
    case Fail(c) => QuietKeeps(s, c, s2.calls[c], window);
  }

  lemma {:induction false} RunKeeps(states: seq<State>, steps: seq<Step>, window: int, i: nat)
    requires Run(states, steps, window) && window > 0 && i < |states|
    ensures Inv(states[i], window)
  {
    if i > 0 {
      RunKeeps(states, steps, window, i - 1);
      StepKeeps(states[i - 1], steps[i - 1], window);
    }
  }

  // ---------------------------------------------------------------- what callers can rely on

  ghost predicate Returned(s: State, c: nat, result: bool) {
    c in s.calls && s.calls[c].phase.Done? && s.calls[c].phase.result == result
  }

  lemma {:induction false} ClaimsApart(claims: seq<nat>, calls: map<nat, Call>, window: int, i: nat, j: nat)
    requires Spaced(claims, calls, window) && window > 0 && i < j < |claims|
    ensures claims[i] in calls && claims[j] in calls
    ensures calls[claims[j]].now - calls[claims[i]].now >= window
    decreases j
  {
    assert claims[i] in claims && claims[j] in claims && claims[j - 1] in claims;
    if i < j - 1 { ClaimsApart(claims, calls, window, i, j - 1); }
  }

  ghost predicate ClaimedBefore(s: State, a: nat, b: nat) {
    exists m, n :: 0 <= m < n < |s.claims| && s.claims[m] == a && s.claims[n] == b
  }

  /** Any two sightings reported as new are at least a window apart, in the order they were claimed. */
  lemma TrueSightingsApart(states: seq<State>, steps: seq<Step>, window: int, i: nat, a: nat, b: nat)
    requires Run(states, steps, window) && window > 0 && i < |states| && a != b
    requires Returned(states[i], a, true) && Returned(states[i], b, true)
    ensures ClaimedBefore(states[i], a, b) || ClaimedBefore(states[i], b, a)
    ensures ClaimedBefore(states[i], a, b) ==> states[i].calls[b].now - states[i].calls[a].now >= window
  {
    var s := states[i];
    RunKeeps(states, steps, window, i);
    assert CallOK(s, a, window) && CallOK(s, b, window);
    var m :| 0 <= m < |s.claims| && s.claims[m] == a;
    var n :| 0 <= n < |s.claims| && s.claims[n] == b;
    assert ClaimedBefore(s, a, b) || ClaimedBefore(s, b, a) by {
      assert m < n || n < m;
    }
    if ClaimedBefore(s, a, b) {
      var x, y :| 0 <= x < y < |s.claims| && s.claims[x] == a && s.claims[y] == b;
      ClaimsApart(s.claims, s.calls, window, x, y);
    }
  }

  /** `last_seen` never decreases, and the row never goes away. */
  lemma {:induction false} LastSeenGrows(states: seq<State>, steps: seq<Step>, window: int, i: nat, j: nat)
    requires Run(states, steps, window) && window > 0 && i <= j < |states| && states[i].row.Some?
    ensures states[j].row.Some? && states[i].row.value.last <= states[j].row.value.last
    decreases j
  {
    if i < j {
      LastSeenGrows(states, steps, window, i, j - 1);
      RunKeeps(states, steps, window, j - 1);
      var s, step := states[j - 1], steps[j - 1];
      assert states[j] == Apply(s, step, window);
      if step.Commit? { assert CallOK(s, step.call, window); }
    }
  }

  /**
    Racing first sightings, all within a window of each other: once any of them has returned, at most one
    has reported the family as new, and exactly one unless the call that claimed it failed.
   */
  lemma OneFirstSighting(states: seq<State>, steps: seq<Step>, window: int, i: nat) returns (first: nat)
    requires Run(states, steps, window) && window > 0 && i < |states|
    requires forall a, b :: a in states[i].calls && b in states[i].calls ==>
               states[i].calls[a].now - states[i].calls[b].now < window
    requires exists c :: c in states[i].calls && states[i].calls[c].phase.Done?
    ensures first in states[i].claims && first in states[i].calls
    ensures forall d :: Returned(states[i], d, true) ==> d == first
    ensures Returned(states[i], first, true) || states[i].calls[first].phase.Failed?
  {
    var s := states[i];
    RunKeeps(states, steps, window, i);
    var c :| c in s.calls && s.calls[c].phase.Done?;
    assert CallOK(s, c, window);
    first := s.claims[0];
    assert first in s.claims;
    forall d | Returned(s, d, true) ensures d == first {
      assert CallOK(s, d, window);
      var n :| 0 <= n < |s.claims| && s.claims[n] == d;
      if n > 0 { ClaimsApart(s.claims, s.calls, window, 0, n); }
    }
  }

  // ---------------------------------------------------------------- which sightings are recorded

  /** `last_seen` is the latest time of the calls that wrote. */
  lemma LastSeenIsLatest(states: seq<State>, steps: seq<Step>, window: int, i: nat)
    requires Run(states, steps, window) && window > 0 && i < |states| && states[i].row.Some?
    ensures var s := states[i];
            && (forall w :: w in s.writers ==> w in s.calls && s.calls[w].now <= s.row.value.last)
            && (exists w :: w in s.writers && w in s.calls && s.calls[w].now == s.row.value.last)
  {
    RunKeeps(states, steps, window, i);
  }

  /**
    A finished call is unrecorded exactly when it lost the race for an expired family or every attempt; and
    one told that the family was seen lately has another writer less than a window before it.
   */
  lemma SightingRecorded(states: seq<State>, steps: seq<Step>, window: int, i: nat, c: nat)
    requires Run(states, steps, window) && window > 0 && i < |states|
    requires c in states[i].calls && states[i].calls[c].phase.Done?
    ensures var s, how := states[i], states[i].calls[c].phase.how;
            && (c !in s.writers <==> how.Lost? || how.GaveUp?)
            && (c in s.writers ==> s.row.Some? && s.calls[c].now <= s.row.value.last)
            && (how.Refreshed? ==> SeenLately(s, c, window))
  {
    RunKeeps(states, steps, window, i);
    assert CallOK(states[i], c, window);
  }

  /** Between a read of the call's, step `r`, and state `t` no other call's write took effect. */
  ghost predicate Alone(states: seq<State>, steps: seq<Step>, r: nat, t: nat, c: nat) {
    && r < t <= |steps| && |states| == |steps| + 1 && steps[r] == Read(c)
    && forall j :: r < j < t && (steps[j].Insert? || steps[j].Commit?) && steps[j].call != c ==>
         states[j + 1].row == states[j].row
  }

  /** How far a call can be when only its own writes took effect since it read. */
  ghost predicate OnTrack(s: State, c: nat) {
    && c in s.calls
    && match s.calls[c].phase
       case Reading(_) => false
       case Inserting(_) => s.row.None?
       case Altering(_, last) => s.row.Some? && s.row.value.last == last
       case Committing(_, _, seen) => s.row == Some(seen)
       case ReadingBack => c in s.writers
       case Done(_, _) => c in s.writers
       case Failed => true
  }

  lemma StaysOnTrack(s: State, step: Step, c: nat, window: int)
    requires Enabled(s, step) && OnTrack(s, c)
    requires (step.Insert? || step.Commit?) && step.call != c ==> Apply(s, step, window).row == s.row
    ensures OnTrack(Apply(s, step, window), c)
  {
  }

  lemma {:induction false} AloneOnTrack(states: seq<State>, steps: seq<Step>, window: int, r: nat, t: nat, c: nat)
    requires Run(states, steps, window) && Alone(states, steps, r, t, c)
    ensures OnTrack(states[t], c)
    decreases t
  {
    assert Enabled(states[t - 1], steps[t - 1]) && states[t] == Apply(states[t - 1], steps[t - 1], window);
    if t > r + 1 {
      AloneOnTrack(states, steps, window, r, t - 1, c);
      StaysOnTrack(states[t - 1], steps[t - 1], c, window);
    }
  }

  /** A call is recorded whenever no other call's write takes effect between its last read and its end. */
  lemma RecordedAlone(states: seq<State>, steps: seq<Step>, window: int, r: nat, t: nat, c: nat)
    requires Run(states, steps, window) && window > 0 && Alone(states, steps, r, t, c)
    requires c in states[t].calls && states[t].calls[c].phase.Done?
    ensures c in states[t].writers && states[t].row.Some? && states[t].calls[c].now <= states[t].row.value.last
  {
    AloneOnTrack(states, steps, window, r, t, c);
    SightingRecorded(states, steps, window, t, c);
  }

  // ---------------------------------------------------------------- two that are not

  lemma Extend(states: seq<State>, steps: seq<Step>, window: int, step: Step)
    requires Run(states, steps, window) && Enabled(states[|steps|], step)
    ensures Run(states + [Apply(states[|steps|], step, window)], steps + [step], window)
  {
  }

  /** A family claimed at 0, and two later calls that have both read that sighting. */
  lemma TwoReaders(window: int, first: int, second: int) returns (states: seq<State>, steps: seq<Step>)
    ensures Run(states, steps, window)
    ensures states[|steps|] == State(Some(Row(0, 0, 0)),
                                     map[0 := Call(0, Done(true, Claimed)), 1 := Call(first, Altering(0, 0)),
                                         2 := Call(second, Altering(0, 0))], [0], {0})
  {
    states, steps := [Empty], [];
    states, steps := Take(states, steps, window, Start(0, 0));
    states, steps := Take(states, steps, window, Read(0));
    states, steps := Take(states, steps, window, Insert(0, true));
    var done := Call(0, Done(true, Claimed));
    assert states[|steps|] == State(Some(Row(0, 0, 0)), map[0 := done], [0], {0});
    states, steps := Take(states, steps, window, Start(1, first));
    states, steps := Take(states, steps, window, Read(1));
    assert states[|steps|] == State(Some(Row(0, 0, 0)), map[0 := done, 1 := Call(first, Altering(0, 0))], [0], {0});
    states, steps := Take(states, steps, window, Start(2, second));
    states, steps := Take(states, steps, window, Read(2));
  }

  lemma Take(states: seq<State>, steps: seq<Step>, window: int, step: Step)
    returns (states2: seq<State>, steps2: seq<Step>)
    requires Run(states, steps, window) && Enabled(states[|steps|], step)
    ensures Run(states2, steps2, window) && states <= states2 && steps2 == steps + [step]
    ensures states2[|steps2|] == Apply(states[|steps|], step, window)
  {
    Extend(states, steps, window, step);
    states2, steps2 := states + [Apply(states[|steps|], step, window)], steps + [step];
  }

  /**
    Not every sighting is recorded: a call that loses the race for an expired family writes nothing,
    and when its own time was the later one, `last_seen` stays behind it.
   */
  lemma LostSightingUnrecorded(window: int, first: int, second: int) returns (states: seq<State>, steps: seq<Step>)
    requires 0 < window <= first < second
    ensures Run(states, steps, window)
    ensures var s := states[|steps|];
            && 2 in s.calls && s.calls[2] == Call(second, Done(false, Lost))
            && s.row.Some? && s.row.value.last == first < second
  {
    states, steps := TwoReaders(window, first, second);
    states, steps := Take(states, steps, window, AlterRead(1));
    states, steps := Take(states, steps, window, Commit(1, true));
    states, steps := Take(states, steps, window, AlterRead(2));
    states, steps := Take(states, steps, window, ReadBack(2));
  }

  /** One attempt of call `c` lost to a call that reads with it and commits first. */
  lemma OneConflict(states: seq<State>, steps: seq<Step>, window: int, c: nat, d: nat, attempt: nat)
    returns (states2: seq<State>, steps2: seq<Step>)
    requires Run(states, steps, window) && c != d && d !in states[|steps|].calls
    requires var s := states[|steps|];
             && s.row.Some? && s.row.value.last == 0 && c in s.calls && s.calls[c].phase == Reading(attempt)
             && 0 < s.calls[c].now < window && c !in s.writers
    ensures Run(states2, steps2, window)
    ensures var s, s2 := states[|steps|], states2[|steps2|];
            && s2.row.Some? && s2.row.value.last == 0 && s2.calls.Keys == s.calls.Keys + {d}
            && s2.calls[c] == Call(s.calls[c].now, Retry(attempt)) && c !in s2.writers
  {
    states2, steps2 := Take(states, steps, window, Start(d, 0));
    states2, steps2 := Take(states2, steps2, window, Read(d));
    states2, steps2 := Take(states2, steps2, window, AlterRead(d));
    states2, steps2 := Take(states2, steps2, window, Read(c));
    states2, steps2 := Take(states2, steps2, window, AlterRead(c));
    states2, steps2 := Take(states2, steps2, window, Commit(d, true));
    states2, steps2 := Take(states2, steps2, window, Commit(c, true));
  }

  /** `n` lost attempts in a row. */
  lemma {:induction false} ManyConflicts(window: int, now: int, n: nat) returns (states: seq<State>, steps: seq<Step>)
    requires 0 < now < window && n <= SEEN_ATTEMPTS
    ensures Run(states, steps, window)
    ensures var s := states[|steps|];
            && s.row.Some? && s.row.value.last == 0 && 1 in s.calls && 1 !in s.writers
            && (forall d :: d in s.calls ==> d < n + 2)
            && s.calls[1] == Call(now, if n == 0 then Reading(0) else Retry(n - 1))
  {
    if n == 0 {
      states, steps := [Empty], [];
      states, steps := Take(states, steps, window, Start(0, 0));
      states, steps := Take(states, steps, window, Read(0));
      states, steps := Take(states, steps, window, Insert(0, true));
      states, steps := Take(states, steps, window, Start(1, now));
    } else {
      states, steps := ManyConflicts(window, now, n - 1);
      states, steps := OneConflict(states, steps, window, 1, n + 1, n - 1);
    }
  }

  /** A call that loses all its attempts reports "not new" and is not recorded either. */
  lemma GaveUpUnrecorded(window: int, now: int) returns (states: seq<State>, steps: seq<Step>)
    requires 0 < now < window
    ensures Run(states, steps, window)
    ensures var s := states[|steps|];
            && 1 in s.calls && s.calls[1] == Call(now, Done(false, GaveUp))
            && s.row.Some? && s.row.value.last == 0 < now
  {
    states, steps := ManyConflicts(window, now, SEEN_ATTEMPTS);
  }
}
