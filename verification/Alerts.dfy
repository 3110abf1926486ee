/**
  Alert deduplication: the bounded tracker of error families seen recently, the per-family cooldown of
  the flush-driven rules, and the queue of flush evaluations.
 */
module Alerts {
  import opened Entries
  import opened Recency

  const MAX_PENDING_FLUSH_ENTRIES: nat := 10_000

  // ---------------------------------------------------------------- the tracker

  /** The family was really seen less than a window ago. */
  predicate SeenWithin(last: Option<int>, nowMs: int, windowMs: int) {
    last.Some? && nowMs - last.value < windowMs
  }

  class NewExceptionTracker {
    var seen: seq<Item<string, int>>
    const maxFamilies: nat
    ghost var history: seq<Item<string, int>>

    ghost predicate Valid() reads this { seen == Bounded(history, maxFamilies) }

    constructor (maxFamilies: nat)
      ensures Valid() && history == [] && this.maxFamilies == maxFamilies
    {
      this.maxFamilies := maxFamilies;
      seen, history := [], [];
    }

    /**
      Whether the family is new for the window. The answer is that of an unbounded last-seen map,
      unless `maxFamilies` other families were observed since; "not new" is never wrong.
     */
    method Observe(familyHash: string, nowMs: int, windowMs: int) returns (isNew: bool)
      requires Valid()
      modifies this
      ensures Valid() && history == old(history) + [Item(familyHash, nowMs)] && |seen| <= maxFamilies
      ensures isNew <==> !(SeenWithin(LastUse(old(history), familyHash), nowMs, windowMs)
                           && |OthersSince(old(history), familyHash)| < maxFamilies)
    {
      BoundedKnows(history, maxFamilies, familyHash);
      var lastSeen := Lookup(seen, familyHash);
      isNew := lastSeen.None? || nowMs - lastSeen.value >= windowMs;
      UsedOnce(history, maxFamilies, familyHash, nowMs);
      seen := Put(seen, familyHash, nowMs);
      history := history + [Item(familyHash, nowMs)];
      EvictIfNeeded();
      BoundedKnows(history, maxFamilies, familyHash);
    }

    /** What is left are the last `maxFamilies` of the map, untouched. */
    method EvictIfNeeded()
      modifies this`seen
      ensures seen == Last(old(seen), maxFamilies)
    {
      while |seen| > maxFamilies
        invariant |seen| >= maxFamilies || seen == old(seen)
        invariant |seen| <= |old(seen)| && seen == old(seen)[|old(seen)| - |seen|..]
      {
        seen := seen[1..];
      }
    }
  }

  lemma UsedOnce<K, V>(h: seq<Item<K, V>>, cap: nat, k: K, v: V)
    ensures Bounded(h + [Item(k, v)], cap) == Last(Put(Bounded(h, cap), k, v), cap)
  {
    assert (h + [Item(k, v)])[..|h|] == h;
  }

  // ---------------------------------------------------------------- cooldowns

  /** The rules keep independent clocks for one family. */
  datatype FireKey = FireKey(every: bool, family: string)

  /**
    Each fire comes at least a cooldown after the one before it of the same rule and family, unless so
    many other keys fired in between that its clock was evicted.
   */
  ghost predicate Spaced(fires: seq<Item<FireKey, int>>, cooldownMs: int, cap: nat) {
    forall j :: 0 <= j < |fires| ==>
      var last := LastUse(fires[..j], fires[j].key);
      last.None? || fires[j].value - last.value >= cooldownMs || |OthersSince(fires[..j], fires[j].key)| >= cap
  }

  lemma SpacedPush(fires: seq<Item<FireKey, int>>, cooldownMs: int, cap: nat, key: FireKey, nowMs: int)
    requires Spaced(fires, cooldownMs, cap)
    requires !SeenWithin(Lookup(Bounded(fires, cap), key), nowMs, cooldownMs)
    ensures Spaced(fires + [Item(key, nowMs)], cooldownMs, cap)
  {
    var more := fires + [Item(key, nowMs)];
    BoundedKnows(fires, cap, key);
    forall j | 0 <= j < |more|
      ensures var last := LastUse(more[..j], more[j].key);
              last.None? || more[j].value - last.value >= cooldownMs || |OthersSince(more[..j], more[j].key)| >= cap
    {
      assert more[..j] == fires[..j];
      if j == |fires| { assert fires[..j] == fires; }
    }
  }

  lemma {:induction false} LastUseIndex<K, V>(h: seq<Item<K, V>>, k: K, i: nat) returns (p: nat)
    requires i < |h| && h[i].key == k
    ensures i <= p < |h| && h[p].key == k && LastUse(h, k) == Some(h[p].value)
  {
    var n := |h| - 1;
    if h[n].key == k { p := n; } else { p := LastUseIndex(h[..n], k, i); }
  }

  lemma {:induction false} OthersAreKeys<K, V>(h: seq<Item<K, V>>, k: K)
    ensures OthersSince(h, k) <= Keys(h) - {k}
  {
    if h != [] {
      var n := |h| - 1;
      OthersAreKeys(h[..n], k);
      assert h == h[..n] + [h[n]];
      KeysAppend(h[..n], h[n]);
    }
  }

  lemma FewerOthers<K, V>(h: seq<Item<K, V>>, all: seq<Item<K, V>>, k: K)
    requires h <= all && k in Keys(all)
    ensures |OthersSince(h, k)| < |Keys(all)|
  {
    OthersAreKeys(h, k);
    assert all == h + all[|h|..];
    assert forall x :: x in h ==> x in all;
    SubsetSize(OthersSince(h, k) + {k}, Keys(all));
  }

  /** While no clock had to be evicted, any two fires of one rule and family are a cooldown apart. */
  lemma {:induction false} FiresApart(fires: seq<Item<FireKey, int>>, cooldownMs: int, cap: nat, i: nat, j: nat)
    requires Spaced(fires, cooldownMs, cap) && cooldownMs >= 0 && |Keys(fires)| <= cap
    requires i < j < |fires| && fires[i].key == fires[j].key
    ensures fires[j].value - fires[i].value >= cooldownMs
    decreases j
  {
    var p := LastUseIndex(fires[..j], fires[j].key, i);
    assert fires[j] in fires;
    FewerOthers(fires[..j], fires, fires[j].key);
    if p > i { FiresApart(fires, cooldownMs, cap, i, p); }
  }

  /** The rule has fired for the family at this time, or less than a cooldown ago. */
  ghost predicate Alerted(fires: seq<Item<FireKey, int>>, key: FireKey, nowMs: int, cooldownMs: int) {
    LastUse(fires, key).Some?
    && (LastUse(fires, key).value == nowMs || nowMs - LastUse(fires, key).value < cooldownMs)
  }

  lemma AlertedStays(fires: seq<Item<FireKey, int>>, key: FireKey, other: FireKey, nowMs: int, cooldownMs: int)
    ensures Alerted(fires, key, nowMs, cooldownMs) ==>
              Alerted(fires + [Item(other, nowMs)], key, nowMs, cooldownMs)
    ensures Alerted(fires + [Item(other, nowMs)], other, nowMs, cooldownMs)
  {
    assert (fires + [Item(other, nowMs)])[..|fires|] == fires;
  }

  /** Fired just now, or in cooldown: alerted either way. */
  lemma AlertedNow(before: seq<Item<FireKey, int>>, fires: seq<Item<FireKey, int>>, key: FireKey, cap: nat,
                   nowMs: int, cooldownMs: int)
    requires fires == before + [Item(key, nowMs)]
             || (fires == before && SeenWithin(Lookup(Bounded(before, cap), key), nowMs, cooldownMs))
    ensures Alerted(fires, key, nowMs, cooldownMs)
  {
    AlertedStays(before, key, key, nowMs, cooldownMs);
    BoundedKnows(before, cap, key);
  }

  // ---------------------------------------------------------------- the alerter

  /** The families of the exception entries one flush stored, and the time it was queued at. */
  datatype Flush = Flush(families: seq<string>, nowMs: int)

  function Pending(queue: seq<Flush>): nat {
    if queue == [] then 0 else |queue[0].families| + Pending(queue[1..])
  }

  lemma {:induction false} PendingAppend(queue: seq<Flush>, f: Flush)
    ensures Pending(queue + [f]) == Pending(queue) + |f.families|
  {
    if queue == [] {
      assert queue + [f] == [f];
    } else {
      PendingAppend(queue[1..], f);
      assert (queue + [f])[1..] == queue[1..] + [f];
    }
  }

  /** The families of the entries of both exception kinds; an entry without one is passed over. */
  function ExceptionFamilies(entries: seq<Entry>): seq<string> {
    if entries == [] then []
    else
      var n := |entries| - 1;
      var e := entries[n];
      ExceptionFamilies(entries[..n])
      + if (e.kind == "exception" || e.kind == "client_exception") && e.family.Some? then [e.family.value] else []
  }

  predicate Queued(e: Entry) { (e.kind == "exception" || e.kind == "client_exception") && e.family.Some? }

  /** `picked` are the places of all the entries to queue, in order, and `families` are their families. */
  ghost predicate Picks(entries: seq<Entry>, families: seq<string>, picked: seq<nat>) {
    && |picked| == |families|
    && (forall i, j :: 0 <= i < j < |picked| ==> picked[i] < picked[j])
    && (forall j :: 0 <= j < |picked| ==>
          picked[j] < |entries| && Queued(entries[picked[j]]) && entries[picked[j]].family == Some(families[j]))
    && (forall i :: 0 <= i < |entries| && Queued(entries[i]) ==> i in picked)
  }

  /** Exactly the exceptions with a family, of either kind, in the order they were stored. */
  ghost predicate Queues(entries: seq<Entry>, families: seq<string>) {
    exists picked :: Picks(entries, families, picked)
  }

  lemma {:induction false} Picked(entries: seq<Entry>) returns (picked: seq<nat>)
    ensures Picks(entries, ExceptionFamilies(entries), picked)
  {
    picked := [];
    if entries != [] {
      var n := |entries| - 1;
      picked := Picked(entries[..n]);
      PickedNext(entries[..n], ExceptionFamilies(entries[..n]), picked, entries);
      if Queued(entries[n]) { picked := picked + [n]; }
    }
  }

  lemma PickedNext(rest: seq<Entry>, families: seq<string>, picked: seq<nat>, entries: seq<Entry>)
    requires entries != [] && rest == entries[..|entries| - 1] && Picks(rest, families, picked)
    ensures var n := |entries| - 1;
            if Queued(entries[n]) then Picks(entries, families + [entries[n].family.value], picked + [n])
            else Picks(entries, families + [], picked)
  {
    var n := |entries| - 1;
    assert forall i :: 0 <= i < n ==> rest[i] == entries[i];
    if Queued(entries[n]) { assert forall i :: i in picked ==> i in picked + [n]; }
  }

  class TelescopeAlerter {
    const newRuleWindowMs: Option<int>
    const everyRule: bool
    const cooldownMs: int
    const maxFiredFamilies: nat
    const tracker: NewExceptionTracker
    var fired: seq<Item<FireKey, int>>
    var queue: seq<Flush>
    var pendingFlushEntries: nat
    var warnedFlushBacklog: bool
    ghost var fires: seq<Item<FireKey, int>>

    ghost predicate Valid() reads this, tracker {
      && tracker.Valid() && FiresOK()
      && pendingFlushEntries == Pending(queue) <= MAX_PENDING_FLUSH_ENTRIES
    }

    ghost predicate FiresOK() reads this {
      fired == Bounded(fires, maxFiredFamilies) && Spaced(fires, cooldownMs, maxFiredFamilies)
    }

    constructor (newRuleWindowMs: Option<int>, everyRule: bool, cooldownMs: int, maxFamilies: nat)
      ensures Valid() && fires == [] && queue == [] && fresh(tracker)
      ensures this.newRuleWindowMs == newRuleWindowMs && this.everyRule == everyRule
              && this.cooldownMs == cooldownMs && this.maxFiredFamilies == maxFamilies
    {
      this.newRuleWindowMs, this.everyRule, this.cooldownMs := newRuleWindowMs, everyRule, cooldownMs;
      this.maxFiredFamilies := maxFamilies;
      tracker := new NewExceptionTracker(maxFamilies);
      fired, queue, pendingFlushEntries, warnedFlushBacklog := [], [], 0, false;
      fires := [];
    }

    /** Queues the flush's exceptions behind the earlier flushes, unless the backlog is full. */
    method EvaluateFlush(storedEntries: seq<Entry>, nowMs: int)
      requires Valid()
      modifies this
      ensures Valid() && fires == old(fires) && fired == old(fired)
      ensures var families := ExceptionFamilies(storedEntries);
              var queued := (newRuleWindowMs.Some? || everyRule) && families != []
                            && old(pendingFlushEntries) + |families| <= MAX_PENDING_FLUSH_ENTRIES;
              && queue == (if queued then old(queue) + [Flush(families, nowMs)] else old(queue))
              && Queues(storedEntries, families)
              && warnedFlushBacklog == (old(warnedFlushBacklog)
                                        || ((newRuleWindowMs.Some? || everyRule) && families != [] && !queued))
    {
      ghost var picked := Picked(storedEntries);
      assert Picks(storedEntries, ExceptionFamilies(storedEntries), picked);
      if newRuleWindowMs.None? && !everyRule { return; }
      var exceptions := ExceptionFamilies(storedEntries);
      if |exceptions| == 0 { return; }
      if pendingFlushEntries + |exceptions| > MAX_PENDING_FLUSH_ENTRIES {
        warnedFlushBacklog := true;
        return;
      }
      PendingAppend(queue, Flush(exceptions, nowMs));
      pendingFlushEntries := pendingFlushEntries + |exceptions|;
      queue := queue + [Flush(exceptions, nowMs)];
    }

    /**
      The evaluation of the flush at the head of the queue, run to its end. `shared` are the shared
      store's answers, where it gave one, and `throwsAt` the entry whose dispatch throws, if any does.
     */
    method RunFlush(shared: seq<Option<bool>>, throwsAt: Option<nat>)
      requires Valid() && queue != [] && |shared| == |queue[0].families|
      modifies this, tracker
      ensures Valid() && queue == old(queue)[1..]
      ensures warnedFlushBacklog == (old(warnedFlushBacklog) && pendingFlushEntries > 0)
      ensures var v := Evaluation(old(queue)[0].families, shared, old(queue)[0].nowMs, everyRule, newRuleWindowMs,
                                  old(tracker.history), tracker.maxFamilies);
              && Extends(old(fires), fires, v.nowMs) && FiresOnly(old(fires), fires, Due(v, |shared|))
              && (throwsAt.None? ==> AllAlerted(fires, Due(v, |shared|), v.nowMs, cooldownMs))
    {
      var flush := queue[0];
      EvaluateExceptions(flush.families, flush.nowMs, shared, throwsAt);
      queue := queue[1..];
      pendingFlushEntries := pendingFlushEntries - |flush.families|;
      if pendingFlushEntries == 0 { warnedFlushBacklog := false; }
    }

    /**
      Every fire is one that some entry calls for, whether or not a dispatch throws; and unless one does,
      whatever is called for has been alerted, now or within its cooldown.
     */
    method EvaluateExceptions(families: seq<string>, nowMs: int, shared: seq<Option<bool>>, throwsAt: Option<nat>)
      requires tracker.Valid() && FiresOK() && |shared| == |families|
      modifies this`fired, this`fires, tracker
      ensures tracker.Valid() && FiresOK() && Extends(old(fires), fires, nowMs)
      ensures var v := Evaluation(families, shared, nowMs, everyRule, newRuleWindowMs, old(tracker.history),
                                  tracker.maxFamilies);
              && FiresOnly(old(fires), fires, Due(v, |shared|))
              && (throwsAt.None? ==> AllAlerted(fires, Due(v, |shared|), nowMs, cooldownMs))
    {
      var observed: set<string> := {};
      ghost var v := Evaluation(families, shared, nowMs, everyRule, newRuleWindowMs, tracker.history,
                                tracker.maxFamilies);
      ghost var start := fires;
      for i := 0 to |families|
        invariant tracker.Valid() && FiresOK()
        invariant Evaluated(v, i, start, fires, observed, tracker.history, cooldownMs)
      {
        ghost var before, seen, heard := fires, observed, tracker.history;
        var threw;
        NewHere(v, i);
        observed, threw := EvaluateEntry(families[i], nowMs, shared[i], throwsAt == Some(i), observed, NewAt(v, i));
        EntryDone(v, i, start, before, fires, seen, observed, heard, tracker.history, threw, cooldownMs);
        if threw { return; }
      }
    }

    /** Both rules for one exception; with `throws`, the first dispatch of it ends the evaluation. */
    method EvaluateEntry(family: string, nowMs: int, shared: Option<bool>, throws: bool, seen: set<string>,
                         ghost isNew: bool)
      returns (observed: set<string>, threw: bool)
      requires tracker.Valid() && FiresOK()
      requires isNew == ReportsHere(newRuleWindowMs, seen, shared, tracker.history, family, nowMs, tracker.maxFamilies)
      modifies this`fired, this`fires, tracker
      ensures tracker.Valid() && FiresOK() && Extends(old(fires), fires, nowMs) && (threw ==> throws)
      ensures observed == if newRuleWindowMs.Some? && newRuleWindowMs.value > 0 then seen + {family} else seen
      ensures tracker.history ==
              if newRuleWindowMs.Some? && family !in seen && shared.None?
              then old(tracker.history) + [Item(family, nowMs)] else old(tracker.history)
      ensures FiresOnly(old(fires), fires, Called(family, isNew, everyRule))
      ensures !threw ==> AllAlerted(fires, Called(family, isNew, everyRule), nowMs, cooldownMs)
    {
      ghost var before := fires;
      observed, threw := EvaluateNew(family, nowMs, shared, throws, seen, isNew);
      if threw || !everyRule { return; }
      ghost var mid := fires;
      var firedNow := CheckEvery(family, nowMs);
      threw := firedNow && throws;
      BothRules(before, mid, fires, family, isNew, nowMs, cooldownMs);
    }

    /** A family the flush has observed already is not asked for again. */
    method EvaluateNew(family: string, nowMs: int, shared: Option<bool>, throws: bool, seen: set<string>,
                       ghost isNew: bool)
      returns (observed: set<string>, threw: bool)
      requires tracker.Valid() && FiresOK()
      requires isNew == ReportsHere(newRuleWindowMs, seen, shared, tracker.history, family, nowMs, tracker.maxFamilies)
      modifies this`fired, this`fires, tracker
      ensures tracker.Valid() && FiresOK() && (threw ==> throws)
      ensures observed == if newRuleWindowMs.Some? && newRuleWindowMs.value > 0 then seen + {family} else seen
      ensures tracker.history ==
              if newRuleWindowMs.Some? && family !in seen && shared.None?
              then old(tracker.history) + [Item(family, nowMs)] else old(tracker.history)
      ensures Extends(old(fires), fires, nowMs)
      ensures FiresOnly(old(fires), fires, Called(family, isNew, false))
      ensures isNew ==> Alerted(fires, FireKey(false, family), nowMs, cooldownMs)
    {
      observed, threw := seen, false;
      if newRuleWindowMs.None? || family in observed {
        assert newRuleWindowMs.Some? ==> seen + {family} == seen;
        return;
      }
      if newRuleWindowMs.value > 0 { observed := observed + {family}; }
      var firedNow := CheckNew(family, nowMs, newRuleWindowMs.value, shared);
      threw := firedNow && throws;
    }

    /** `new-exception`: fires exactly for a family that is new for the window and not in cooldown. */
    method CheckNew(family: string, nowMs: int, windowMs: int, shared: Option<bool>) returns (firedNow: bool)
      requires tracker.Valid() && FiresOK()
      modifies this`fired, this`fires, tracker
      ensures tracker.Valid() && FiresOK()
      ensures tracker.history ==
              if shared.None? then old(tracker.history) + [Item(family, nowMs)] else old(tracker.history)
      ensures firedNow <==> ReportedNew(shared, old(tracker.history), family, nowMs, windowMs, tracker.maxFamilies)
                            && !old(FamilyInCooldown(FireKey(false, family), nowMs))
      ensures fires == if firedNow then old(fires) + [Item(FireKey(false, family), nowMs)] else old(fires)
      ensures Extends(old(fires), fires, nowMs)
      ensures ReportedNew(shared, old(tracker.history), family, nowMs, windowMs, tracker.maxFamilies) ==>
                Alerted(fires, FireKey(false, family), nowMs, cooldownMs)
    {
      var isNew := ObserveFamily(family, nowMs, windowMs, shared);
      firedNow := false;
      if isNew { firedNow := FireUnlessCooling(FireKey(false, family), nowMs); }
    }

    /** The `every-exception` rule: only the family's own clock for this rule can hold the fire back. */
    method CheckEvery(family: string, nowMs: int) returns (firedNow: bool)
      requires FiresOK()
      modifies this`fired, this`fires
      ensures FiresOK() && Alerted(fires, FireKey(true, family), nowMs, cooldownMs)
      ensures Extends(old(fires), fires, nowMs)
      ensures firedNow <==> !old(FamilyInCooldown(FireKey(true, family), nowMs))
      ensures fires == if firedNow then old(fires) + [Item(FireKey(true, family), nowMs)] else old(fires)
    {
      firedNow := FireUnlessCooling(FireKey(true, family), nowMs);
    }

    /** Fires for the key unless it fired less than a cooldown ago: alerted either way. */
    method FireUnlessCooling(key: FireKey, nowMs: int) returns (firedNow: bool)
      requires FiresOK()
      modifies this`fired, this`fires
      ensures FiresOK() && Alerted(fires, key, nowMs, cooldownMs) && Extends(old(fires), fires, nowMs)
      ensures firedNow <==> !old(FamilyInCooldown(key, nowMs))
      ensures fires == if firedNow then old(fires) + [Item(key, nowMs)] else old(fires)
    {
      firedNow := !FamilyInCooldown(key, nowMs);
      ghost var before := fires;
      if firedNow { MarkFamilyFired(key, nowMs); }
      AlertedNow(before, fires, key, maxFiredFamilies, nowMs, cooldownMs);
    }

    /** The shared store's answer, or the local tracker's when there is none. */
    method ObserveFamily(family: string, nowMs: int, windowMs: int, shared: Option<bool>) returns (isNew: bool)
      requires tracker.Valid()
      modifies tracker
      ensures tracker.Valid()
      ensures tracker.history ==
              if shared.None? then old(tracker.history) + [Item(family, nowMs)] else old(tracker.history)
      ensures isNew == ReportedNew(shared, old(tracker.history), family, nowMs, windowMs, tracker.maxFamilies)
    {
      if shared.Some? { return shared.value; }
      isNew := tracker.Observe(family, nowMs, windowMs);
    }

    predicate FamilyInCooldown(key: FireKey, nowMs: int) reads this {
      SeenWithin(Lookup(fired, key), nowMs, cooldownMs)
    }

    /** Stamps the clock of a rule and family that is not in cooldown. */
    method MarkFamilyFired(key: FireKey, nowMs: int)
      requires FiresOK() && !FamilyInCooldown(key, nowMs)
      modifies this`fired, this`fires
      ensures FiresOK() && fires == old(fires) + [Item(key, nowMs)]
    {
      SpacedPush(fires, cooldownMs, maxFiredFamilies, key, nowMs);
      UsedOnce(fires, maxFiredFamilies, key, nowMs);
      fired := Put(fired, key, nowMs);
      fires := fires + [Item(key, nowMs)];
      EvictFired();
    }

    method EvictFired()
      modifies this`fired
      ensures fired == Last(old(fired), maxFiredFamilies)
    {
      while |fired| > maxFiredFamilies
        invariant |fired| >= maxFiredFamilies || fired == old(fired)
        invariant |fired| <= |old(fired)| && fired == old(fired)[|old(fired)| - |fired|..]
      {
        fired := fired[1..];
      }
    }
  }

  ghost predicate ReportedNew(shared: Option<bool>, history: seq<Item<string, int>>, family: string, nowMs: int,
                              windowMs: int, maxFamilies: nat)
  {
    if shared.Some? then shared.value
    else !(SeenWithin(LastUse(history, family), nowMs, windowMs) && |OthersSince(history, family)| < maxFamilies)
  }

  ghost predicate ReportsHere(window: Option<int>, seen: set<string>, shared: Option<bool>,
                              history: seq<Item<string, int>>, family: string, nowMs: int, maxFamilies: nat)
  {
    window.Some? && family !in seen && ReportedNew(shared, history, family, nowMs, window.value, maxFamilies)
  }

  /** What one evaluation is given: a flush, the shared answers, the rules, and the observations before it. */
  datatype Evaluation = Evaluation(families: seq<string>, shared: seq<Option<bool>>, nowMs: int, everyRule: bool,
                                   window: Option<int>, known: seq<Item<string, int>>, maxFamilies: nat)

  /** Entry `i` is asked about: with a non-empty window, only the first of its family. */
  ghost predicate Asked(v: Evaluation, i: nat)
    requires i < |v.families|
  {
    v.window.Some? && (v.window.value > 0 ==> v.families[i] !in v.families[..i])
  }

  /** The families already asked about, where a window makes them count once. */
  ghost function ObservedBefore(v: Evaluation, n: nat): set<string>
    requires n <= |v.families|
  {
    if v.window.Some? && v.window.value > 0 then Elems(v.families[..n]) else {}
  }

  /** All observations by the local tracker once `n` entries are through: those without a shared answer. */
  ghost function Heard(v: Evaluation, n: nat): seq<Item<string, int>>
    requires n <= |v.families| == |v.shared|
  {
    if n == 0 then v.known
    else Heard(v, n - 1) + if Asked(v, n - 1) && v.shared[n - 1].None? then [Item(v.families[n - 1], v.nowMs)] else []
  }

  /**
    Entry `i` calls for `new-exception`: the shared store says that its family is new or, without its
    answer, the family was not both observed within the window and followed by fewer than `maxFamilies`
    others.
   */
  ghost predicate NewAt(v: Evaluation, i: nat)
    requires i < |v.families| == |v.shared|
  {
    var f := v.families[i];
    && Asked(v, i)
    && (v.shared[i] == Some(true)
        || (v.shared[i] == None
            && !(LastUse(Heard(v, i), f).Some? && v.nowMs - LastUse(Heard(v, i), f).value < v.window.value
                 && |OthersSince(Heard(v, i), f)| < v.maxFamilies)))
  }

  lemma NewHere(v: Evaluation, i: nat)
    requires i < |v.families| == |v.shared|
    ensures NewAt(v, i) == ReportsHere(v.window, ObservedBefore(v, i), v.shared[i], Heard(v, i), v.families[i],
                                       v.nowMs, v.maxFamilies)
  {
  }

  ghost function Called(family: string, isNew: bool, every: bool): set<FireKey> {
    (if every then {FireKey(true, family)} else {}) + (if isNew then {FireKey(false, family)} else {})
  }

  ghost function DueAt(v: Evaluation, i: nat): set<FireKey>
    requires i < |v.families| == |v.shared|
  {
    Called(v.families[i], NewAt(v, i), v.everyRule)
  }

  ghost function Gather(sets: seq<set<FireKey>>): set<FireKey> {
    if sets == [] then {} else Gather(sets[..|sets| - 1]) + sets[|sets| - 1]
  }

  lemma {:induction false} GatherMember(sets: seq<set<FireKey>>, key: FireKey)
    ensures key in Gather(sets) <==> exists i :: 0 <= i < |sets| && key in sets[i]
  {
    if sets != [] { GatherMember(sets[..|sets| - 1], key); }
  }

  /** What the first `n` entries call for: `every-exception` for each, `new-exception` for the new ones. */
  ghost function Due(v: Evaluation, n: nat): set<FireKey>
    requires n <= |v.families| == |v.shared|
  {
    Gather(seq(n, i requires 0 <= i < n => DueAt(v, i)))
  }

  lemma DueNext(v: Evaluation, i: nat)
    requires i < |v.families| == |v.shared|
    ensures Due(v, i + 1) == Due(v, i) + DueAt(v, i)
  {
    var more := seq(i + 1, k requires 0 <= k < i + 1 => DueAt(v, k));
    assert more[..i] == seq(i, k requires 0 <= k < i => DueAt(v, k));
  }

  lemma {:induction false} DueGrows(v: Evaluation, m: nat, n: nat)
    requires m <= n <= |v.families| == |v.shared|
    ensures Due(v, m) <= Due(v, n)
  {
    if m < n {
      DueGrows(v, m, n - 1);
      DueNext(v, n - 1);
    }
  }

  /** A key is called for exactly by an entry of its family: any for the one rule, a new one for the other. */
  lemma DueMember(v: Evaluation, n: nat, key: FireKey)
    requires n <= |v.families| == |v.shared|
    ensures key in Due(v, n) <==> exists i :: 0 <= i < n && CallsFor(v, i, key)
  {
    var sets := seq(n, i requires 0 <= i < n => DueAt(v, i));
    GatherMember(sets, key);
    forall i | 0 <= i < n ensures key in sets[i] <==> CallsFor(v, i, key) { DueAtMember(v, i, key); }
  }

  ghost predicate CallsFor(v: Evaluation, i: nat, key: FireKey)
    requires i < |v.families| == |v.shared|
  {
    v.families[i] == key.family && if key.every then v.everyRule else NewAt(v, i)
  }

  lemma DueAtMember(v: Evaluation, i: nat, key: FireKey)
    requires i < |v.families| == |v.shared|
    ensures key in DueAt(v, i) <==> CallsFor(v, i, key)
  {
  }

  /** Where an evaluation stands when `n` entries are through. */
  ghost predicate Evaluated(v: Evaluation, n: nat, start: seq<Item<FireKey, int>>, fires: seq<Item<FireKey, int>>,
                            observed: set<string>, heard: seq<Item<string, int>>, cooldownMs: int)
    requires n <= |v.families| == |v.shared|
  {
    && Extends(start, fires, v.nowMs) && observed == ObservedBefore(v, n) && heard == Heard(v, n)
    && FiresOnly(start, fires, Due(v, n)) && AllAlerted(fires, Due(v, n), v.nowMs, cooldownMs)
  }

  /** The evaluation of entry `i` ended, by a throw or not. */
  lemma EntryDone(v: Evaluation, i: nat, start: seq<Item<FireKey, int>>, before: seq<Item<FireKey, int>>,
                  after: seq<Item<FireKey, int>>, seen: set<string>, observed: set<string>,
                  heard: seq<Item<string, int>>, heard2: seq<Item<string, int>>, threw: bool, cooldownMs: int)
    requires i < |v.families| == |v.shared| && Evaluated(v, i, start, before, seen, heard, cooldownMs)
    requires Extends(before, after, v.nowMs) && FiresOnly(before, after, DueAt(v, i))
    requires observed == if v.window.Some? && v.window.value > 0 then seen + {v.families[i]} else seen
    requires heard2 == if v.window.Some? && v.families[i] !in seen && v.shared[i].None?
                       then heard + [Item(v.families[i], v.nowMs)] else heard
    requires !threw ==> AllAlerted(after, DueAt(v, i), v.nowMs, cooldownMs)
    ensures Extends(start, after, v.nowMs) && FiresOnly(start, after, Due(v, |v.families|))
    ensures !threw ==> Evaluated(v, i + 1, start, after, observed, heard2, cooldownMs)
  {
    EntryFires(v, i, start, before, after);
    if !threw {
      StillAlerted(before, after, Due(v, i), v.nowMs, cooldownMs);
      DueNext(v, i);
      BothAlerted(after, Due(v, i), DueAt(v, i), Due(v, i + 1), v.nowMs, cooldownMs);
      ObservedNext(v, i);
    }
  }

  lemma EntryFires(v: Evaluation, i: nat, start: seq<Item<FireKey, int>>, before: seq<Item<FireKey, int>>,
                   after: seq<Item<FireKey, int>>)
    requires i < |v.families| == |v.shared|
    requires Extends(start, before, v.nowMs) && FiresOnly(start, before, Due(v, i))
    requires Extends(before, after, v.nowMs) && FiresOnly(before, after, DueAt(v, i))
    ensures Extends(start, after, v.nowMs)
    ensures FiresOnly(start, after, Due(v, i + 1)) && FiresOnly(start, after, Due(v, |v.families|))
  {
    DueNext(v, i);
    FiresMore(start, before, after, Due(v, i), DueAt(v, i), Due(v, i + 1));
    DueGrows(v, i + 1, |v.families|);
    FiresWithin(start, after, Due(v, i + 1), Due(v, |v.families|));
    FiredOn(start, before, after, FireKey(true, ""), v.nowMs, 0);
  }

  lemma BothRules(before: seq<Item<FireKey, int>>, mid: seq<Item<FireKey, int>>, after: seq<Item<FireKey, int>>,
                  family: string, isNew: bool, nowMs: int, cooldownMs: int)
    requires Extends(before, mid, nowMs) && Extends(mid, after, nowMs)
    requires FiresOnly(before, mid, Called(family, isNew, false)) && FiresOnly(mid, after, {FireKey(true, family)})
    requires isNew ==> Alerted(mid, FireKey(false, family), nowMs, cooldownMs)
    requires Alerted(after, FireKey(true, family), nowMs, cooldownMs)
    ensures Extends(before, after, nowMs) && FiresOnly(before, after, Called(family, isNew, true))
    ensures AllAlerted(after, Called(family, isNew, true), nowMs, cooldownMs)
  {
    FiredOn(before, mid, after, FireKey(false, family), nowMs, cooldownMs);
    FiresMore(before, mid, after, Called(family, isNew, false), {FireKey(true, family)}, Called(family, isNew, true));
  }

  lemma FiresWithin(before: seq<Item<FireKey, int>>, after: seq<Item<FireKey, int>>, due: set<FireKey>,
                    all: set<FireKey>)
    requires FiresOnly(before, after, due) && due <= all
    ensures FiresOnly(before, after, all)
  {
  }

  lemma BothAlerted(fires: seq<Item<FireKey, int>>, due: set<FireKey>, more: set<FireKey>, all: set<FireKey>,
                    nowMs: int, cooldownMs: int)
    requires AllAlerted(fires, due, nowMs, cooldownMs) && AllAlerted(fires, more, nowMs, cooldownMs)
    requires all == due + more
    ensures AllAlerted(fires, all, nowMs, cooldownMs)
  {
  }

  lemma ObservedNext(v: Evaluation, i: nat)
    requires i < |v.families| == |v.shared|
    ensures v.window.Some? ==> (Asked(v, i) <==> v.families[i] !in ObservedBefore(v, i))
    ensures ObservedBefore(v, i + 1) ==
            if v.window.Some? && v.window.value > 0 then ObservedBefore(v, i) + {v.families[i]}
            else ObservedBefore(v, i)
    ensures Heard(v, i + 1) ==
            if v.window.Some? && v.families[i] !in ObservedBefore(v, i) && v.shared[i].None?
            then Heard(v, i) + [Item(v.families[i], v.nowMs)] else Heard(v, i)
  {
    assert v.families[..i + 1] == v.families[..i] + [v.families[i]];
    assert Heard(v, i) + [] == Heard(v, i);
  }

  /** Nothing but the given keys was fired since. */
  ghost predicate FiresOnly(before: seq<Item<FireKey, int>>, after: seq<Item<FireKey, int>>, keys: set<FireKey>) {
    before <= after && forall j :: |before| <= j < |after| ==> after[j].key in keys
  }

  lemma FiresMore(start: seq<Item<FireKey, int>>, before: seq<Item<FireKey, int>>, after: seq<Item<FireKey, int>>,
                  due: set<FireKey>, more: set<FireKey>, all: set<FireKey>)
    requires FiresOnly(start, before, due) && FiresOnly(before, after, more) && all == due + more
    ensures FiresOnly(start, after, all)
  {
    forall j | |start| <= j < |after| ensures after[j].key in all {
      if j < |before| { assert after[j] == before[j]; }
    }
  }

  lemma {:induction false} HeardUses(v: Evaluation, n: nat)
    requires n <= |v.families| == |v.shared|
    ensures OnlyUsed(v.known, Heard(v, n), Elems(v.families[..n]))
  {
    if n > 0 {
      HeardUses(v, n - 1);
      assert v.families[..n] == v.families[..n - 1] + [v.families[n - 1]];
    }
  }

  lemma {:induction false} OthersGrow(before: seq<Item<string, int>>, after: seq<Item<string, int>>, keys: set<string>,
                                      k: string)
    requires OnlyUsed(before, after, keys) && k !in keys
    ensures OthersSince(after, k) <= OthersSince(before, k) + keys
    decreases |after|
  {
    if |after| > |before| {
      var n := |after| - 1;
      assert after[n].key in keys;
      OthersGrow(before, after[..n], keys, k);
    } else {
      assert after == before;
    }
  }

  /** The first entry of a family not seen within the window before the flush calls for `new-exception`. */
  lemma FirstIsDue(v: Evaluation, i: nat)
    requires i < |v.families| == |v.shared| && v.window.Some? && v.families[i] !in v.families[..i]
    requires v.shared[i] == Some(true)
             || (v.shared[i] == None && !SeenWithin(LastUse(v.known, v.families[i]), v.nowMs, v.window.value))
    ensures FireKey(false, v.families[i]) in Due(v, |v.families|)
  {
    HeardUses(v, i);
    StillKnown(v.known, Heard(v, i), Elems(v.families[..i]), v.families[i]);
    assert NewAt(v, i) && CallsFor(v, i, FireKey(false, v.families[i]));
    DueMember(v, |v.families|, FireKey(false, v.families[i]));
  }

  /**
    A family seen within the window before the flush is not paged as new, whatever else the flush holds,
    while the tracker has room for every family since and of the flush.
   */
  lemma SeenIsNotDue(v: Evaluation, f: string)
    requires |v.families| == |v.shared| && v.window.Some? && v.window.value > 0
    requires forall i :: 0 <= i < |v.families| && v.families[i] == f ==> v.shared[i] == None
    requires SeenWithin(LastUse(v.known, f), v.nowMs, v.window.value)
    requires |OthersSince(v.known, f) + Elems(v.families)| < v.maxFamilies
    ensures FireKey(false, f) !in Due(v, |v.families|)
  {
    forall i | 0 <= i < |v.families| && v.families[i] == f ensures !NewAt(v, i) {
      if Asked(v, i) {
        HeardUses(v, i);
        StillKnown(v.known, Heard(v, i), Elems(v.families[..i]), f);
        OthersGrow(v.known, Heard(v, i), Elems(v.families[..i]), f);
        assert Elems(v.families[..i]) <= Elems(v.families);
        SubsetSize(OthersSince(Heard(v, i), f), OthersSince(v.known, f) + Elems(v.families));
      }
    }
    DueMember(v, |v.families|, FireKey(false, f));
  }

  /** `after` is `before` and uses of the keys given. */
  ghost predicate OnlyUsed(before: seq<Item<string, int>>, after: seq<Item<string, int>>, keys: set<string>) {
    before <= after && forall j :: |before| <= j < |after| ==> after[j].key in keys
  }

  /** Uses of other keys leave a key's last use. */
  lemma {:induction false} StillKnown(before: seq<Item<string, int>>, after: seq<Item<string, int>>, keys: set<string>,
                                       k: string)
    requires OnlyUsed(before, after, keys)
    ensures k !in keys ==> LastUse(after, k) == LastUse(before, k)
    decreases |after|
  {
    if |after| > |before| && k !in keys {
      var n := |after| - 1;
      assert after[n].key in keys;
      StillKnown(before, after[..n], keys, k);
    } else if k !in keys {
      assert after == before;
    }
  }

  ghost predicate AllAlerted(fires: seq<Item<FireKey, int>>, due: set<FireKey>, nowMs: int, cooldownMs: int) {
    forall key :: key in due ==> Alerted(fires, key, nowMs, cooldownMs)
  }

  /** `after` is `before` and fires of one evaluation. */
  ghost predicate Extends(before: seq<Item<FireKey, int>>, after: seq<Item<FireKey, int>>, nowMs: int) {
    before <= after && forall j :: |before| <= j < |after| ==> after[j].value == nowMs
  }

  lemma {:induction false} AlertedThrough(before: seq<Item<FireKey, int>>, after: seq<Item<FireKey, int>>,
                                          key: FireKey, nowMs: int, cooldownMs: int)
    requires Extends(before, after, nowMs) && Alerted(before, key, nowMs, cooldownMs)
    ensures Alerted(after, key, nowMs, cooldownMs)
    decreases |after|
  {
    if |after| > |before| {
      var n := |after| - 1;
      assert after == after[..n] + [Item(after[n].key, nowMs)];
      AlertedThrough(before, after[..n], key, nowMs, cooldownMs);
      AlertedStays(after[..n], key, after[n].key, nowMs, cooldownMs);
    } else {
      assert after == before;
    }
  }

  lemma FiredOn(before: seq<Item<FireKey, int>>, mid: seq<Item<FireKey, int>>, after: seq<Item<FireKey, int>>,
                key: FireKey, nowMs: int, cooldownMs: int)
    requires Extends(before, mid, nowMs) && Extends(mid, after, nowMs)
    ensures Extends(before, after, nowMs)
    ensures Alerted(mid, key, nowMs, cooldownMs) ==> Alerted(after, key, nowMs, cooldownMs)
  {
    if Alerted(mid, key, nowMs, cooldownMs) { AlertedThrough(mid, after, key, nowMs, cooldownMs); }
  }

  /** Later fires of the evaluation leave alerted what was. */
  lemma StillAlerted(before: seq<Item<FireKey, int>>, after: seq<Item<FireKey, int>>, due: set<FireKey>, nowMs: int,
                     cooldownMs: int)
    requires Extends(before, after, nowMs) && AllAlerted(before, due, nowMs, cooldownMs)
    ensures AllAlerted(after, due, nowMs, cooldownMs)
  {
    forall key | key in due ensures Alerted(after, key, nowMs, cooldownMs) {
      AlertedThrough(before, after, key, nowMs, cooldownMs);
    }
  }
}
