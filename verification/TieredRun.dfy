/**
  Paging over both tiers while entries are stored and the archiver moves them: every interleaving
  of stores, archive writes and archive deletes with the reads of each page.
 */
module TieredRun {
  import opened Entries
  import opened Pages
  import opened ColdFilters
  import opened ColdStore
  import opened Tiered

  datatype State = State(hot: set<Entry>, cold: set<Entry>)

  datatype Step =
    | Store(entries: set<Entry>)
    | ArchiveWrite(entries: set<Entry>)
    | ArchiveDelete(entries: set<Entry>)

  function All(s: State): set<Entry> { s.hot + s.cold }

  ghost predicate Enabled(s: State, step: Step) {
    match step
    // Fresh ids.
    case Store(es) => Agree(es) && forall a, b :: a in es && b in All(s) ==> a.id != b.id
    case ArchiveWrite(es) => es <= s.hot
    // Hot entries are deleted only once their cold write has completed.
    case ArchiveDelete(es) => es <= s.cold
  }

  function Apply(s: State, step: Step): State {
    match step
    case Store(es) => State(s.hot + es, s.cold)
    case ArchiveWrite(es) => State(s.hot, s.cold + es)
    case ArchiveDelete(es) => State(s.hot - es, s.cold)
  }

  ghost predicate Run(states: seq<State>, steps: seq<Step>) {
    && |states| == |steps| + 1 && states[0] == State({}, {})
    && forall i :: 0 <= i < |steps| ==> Enabled(states[i], steps[i]) && states[i + 1] == Apply(states[i], steps[i])
  }

  /** Moving an entry between the tiers never hides it, and every copy of an id is the same. */
  lemma {:induction false} NothingLost(states: seq<State>, steps: seq<Step>, a: nat, b: nat)
    requires Run(states, steps) && a <= b < |states|
    ensures All(states[a]) <= All(states[b]) && states[a].cold <= states[b].cold && Agree(All(states[b]))
    ensures (forall i :: a <= i < b ==> !steps[i].Store?) ==> All(states[a]) == All(states[b])
    decreases b
  {
    if b > 0 {
      NothingLost(states, steps, if a < b then a else b - 1, b - 1);
      assert Enabled(states[b - 1], steps[b - 1]) && states[b] == Apply(states[b - 1], steps[b - 1]);
    }
  }

  /**
    What the tiers hold: together everything ever stored; in the cold tier what was written there; in the
    hot store what was stored and not deleted after.
   */
  lemma {:induction false} TiersHold(states: seq<State>, steps: seq<Step>, n: nat, e: Entry)
    requires Run(states, steps) && n < |states|
    ensures e in All(states[n]) <==> exists i :: 0 <= i < n && steps[i].Store? && e in steps[i].entries
    ensures e in states[n].cold <==> exists i :: 0 <= i < n && steps[i].ArchiveWrite? && e in steps[i].entries
    ensures e in states[n].hot <==> StoredNotDeleted(steps, n, e)
  {
    if n > 0 {
      TiersHold(states, steps, n - 1, e);
      var step := steps[n - 1];
      assert Enabled(states[n - 1], step) && states[n] == Apply(states[n - 1], step);
      DeletedNext(steps, n, e);
    }
  }

  ghost predicate KeptFrom(steps: seq<Step>, i: int, n: nat, e: Entry) {
    && 0 <= i < n <= |steps| && steps[i].Store? && e in steps[i].entries
    && forall j :: i < j < n && steps[j].ArchiveDelete? ==> e !in steps[j].entries
  }

  ghost predicate StoredNotDeleted(steps: seq<Step>, n: nat, e: Entry) { exists i :: KeptFrom(steps, i, n, e) }

  lemma DeletedNext(steps: seq<Step>, n: nat, e: Entry)
    requires 0 < n <= |steps|
    ensures StoredNotDeleted(steps, n, e) <==>
            (steps[n - 1].Store? && e in steps[n - 1].entries)
            || (StoredNotDeleted(steps, n - 1, e) && !(steps[n - 1].ArchiveDelete? && e in steps[n - 1].entries))
  {
    if steps[n - 1].Store? && e in steps[n - 1].entries { assert KeptFrom(steps, n - 1, n, e); }
    if StoredNotDeleted(steps, n - 1, e) && !(steps[n - 1].ArchiveDelete? && e in steps[n - 1].entries) {
      var m := n - 1;
      var i :| KeptFrom(steps, i, m, e);
      assert KeptFrom(steps, i, n, e);
    }
    if StoredNotDeleted(steps, n, e) {
      var i :| KeptFrom(steps, i, n, e);
      if i < n - 1 { assert KeptFrom(steps, i, n - 1, e); }
    }
  }

  /** One `get`: when it read the hot store, page by page, and then the cold tier. */
  datatype Reading = Reading(hotAt: seq<nat>, coldAt: nat)

  ghost predicate ReadsInOrder(r: Reading, states: seq<State>) {
    && |r.hotAt| == MAX_HOT_PAGES && r.coldAt < |states|
    && (forall i, j :: 0 <= i <= j < |r.hotAt| ==> r.hotAt[i] <= r.hotAt[j])
    && (forall i :: 0 <= i < |r.hotAt| ==> r.hotAt[i] <= r.coldAt)
  }

  ghost predicate Observed(r: Reading, states: seq<State>, snapshots: seq<seq<Entry>>, tier: Tier) {
    && ReadsInOrder(r, states) && |snapshots| == |r.hotAt|
    && (forall i :: 0 <= i < |snapshots| ==> IdsOnce(snapshots[i]) && Elems(snapshots[i]) == states[r.hotAt[i]].hot)
    && TierRows(tier) == states[r.coldAt].cold
  }

  /**
    Reading hot before cold: whatever the steps in between, a `get` sees in one tier or the other
    all that was stored when it began, which is what its page needs to be right.
   */
  lemma ReadsSeeEverything(states: seq<State>, steps: seq<Step>, r: Reading, snapshots: seq<seq<Entry>>,
                           tier: Tier)
    requires Run(states, steps) && Observed(r, states, snapshots, tier)
    ensures var u, v := All(states[r.hotAt[0]]), All(states[r.coldAt]);
            && HotReads(snapshots, v) && TierRows(tier) <= v && u <= v
            && Held(snapshots, TierRows(tier), u)
  {
    var u, v := All(states[r.hotAt[0]]), All(states[r.coldAt]);
    NothingLost(states, steps, r.hotAt[0], r.coldAt);
    forall s | s in snapshots ensures IdsOnce(s) && Elems(s) <= v {
      var i :| 0 <= i < |snapshots| && snapshots[i] == s;
      NothingLost(states, steps, r.hotAt[i], r.coldAt);
    }
    forall e, i | e in u && e !in TierRows(tier) && 0 <= i < |snapshots| ensures e in snapshots[i] {
      NothingLost(states, steps, r.hotAt[0], r.hotAt[i]);
      NothingLost(states, steps, r.hotAt[i], r.coldAt);
      assert e in Elems(snapshots[i]);
    }
  }

  /** Reading the cold tier first would miss an entry that is archived between the two reads. */
  lemma ColdFirstMisses(e: Entry) returns (states: seq<State>, steps: seq<Step>)
    ensures Run(states, steps) && |states| == 4
    ensures e !in states[1].cold && e !in states[3].hot && e in All(states[1])
    ensures forall i :: 1 <= i < 4 ==> All(states[i]) == {e}
  {
    steps := [Store({e}), ArchiveWrite({e}), ArchiveDelete({e})];
    states := [State({}, {}), State({e}, {}), State({e}, {e}), State({}, {e})];
  }

  // ---------------------------------------------------------------- following nextCursor

  function Concat(pages: seq<Page>): seq<Entry> {
    if pages == [] then [] else pages[0].data + Concat(pages[1..])
  }

  ghost function Before(r: Reading, states: seq<State>): set<Entry>
    requires ReadsInOrder(r, states)
  {
    All(states[r.hotAt[0]])
  }

  ghost function After(r: Reading, states: seq<State>): set<Entry>
    requires ReadsInOrder(r, states)
  {
    All(states[r.coldAt])
  }

  /** A `get` made during a run gives a right page, whatever happened between its reads. */
  method GetDuring(ghost states: seq<State>, ghost steps: seq<Step>, ghost r: Reading,
                   snapshots: seq<seq<Entry>>, tier: Tier, q: EntryQuery)
    returns (page: Page)
    requires Run(states, steps) && Observed(r, states, snapshots, tier) && GoodTier(tier)
    requires LimitOK(tier, ToColdFilter(q), Some(ResolveLimit(q.limit) + 1))
    requires TieBudget(HotSeen(snapshots), q, ResolveLimit(q.limit) + 1)
    ensures PageOK(page, Before(r, states), After(r, states), q, ResolveLimit(q.limit))
  {
    ReadsSeeEverything(states, steps, r, snapshots, tier);
    page := Get(snapshots, tier, q, Before(r, states), After(r, states));
  }

  /** `pages` were fetched one after the other, the first for `q`, each next one for the cursor given. */
  ghost predicate Followed(pages: seq<Page>, readings: seq<Reading>, states: seq<State>, q: EntryQuery,
                           limit: nat)
  {
    && |pages| == |readings| > 0 && limit >= 1 && ReadsInOrder(readings[0], states)
    && PageOK(pages[0], Before(readings[0], states), After(readings[0], states), q, limit)
    && (|pages| > 1 ==>
          && pages[0].next.Some?
          && Followed(pages[1..], readings[1..], states, q.(cursor := pages[0].next), limit)
          && readings[0].coldAt <= readings[1].hotAt[0])
  }

  lemma BehindBehind(e: Entry, m: Entry, p: Position)
    requires Behind(e, PositionOf(m)) && Behind(m, p)
    ensures Behind(e, p) && Newer(m, e)
  {
    NewerOrder(e, m, e);
    if e.at == m.at == p.at { LessTransitive(e.id, m.id, p.id); }
  }

  /** Moving the cursor to a hit narrows the query to the hits older than it. */
  lemma NextHits(s: set<Entry>, q: EntryQuery, m: Entry)
    requires q.cursor.Some? ==> Behind(m, q.cursor.value)
    ensures Hits(s, q.(cursor := Some(PositionOf(m)))) == set e | e in Hits(s, q) && Newer(m, e)
  {
    var q' := q.(cursor := Some(PositionOf(m)));
    forall x ensures x in Hits(s, q') <==> x in Hits(s, q) && Newer(m, x) {
      NewerOrder(x, m, x);
      if x in Hits(s, q') {
        var e :| e in s && Wanted(e, q') && Behind(e, PositionOf(m)) && x == Project(e, q.omitContent);
        if q.cursor.Some? { BehindBehind(e, m, q.cursor.value); }
        assert Wanted(e, q);
      }
      if x in Hits(s, q) && Newer(m, x) {
        var e :| e in s && Wanted(e, q) && (q.cursor.Some? ==> Behind(e, q.cursor.value))
                 && x == Project(e, q.omitContent);
        assert Wanted(e, q') && Behind(e, PositionOf(m));
      }
    }
  }

  lemma HitsGrow(s: set<Entry>, t: set<Entry>, q: EntryQuery)
    requires s <= t
    ensures Hits(s, q) <= Hits(t, q)
  {
  }

  /** The pages from one on, as a listing of what its query asks for. */
  ghost predicate Lists(data: seq<Entry>, u: set<Entry>, v: set<Entry>, q: EntryQuery, complete: bool) {
    && Descending(data) && Elems(data) <= Hits(v, q)
    && (complete ==> Hits(u, q) <= Elems(data))
  }

  /** A page followed by the listing its cursor asks for is the listing of the page's own query. */
  lemma PageThenRest(page: Page, u: set<Entry>, v: set<Entry>, q: EntryQuery, limit: nat, rest: seq<Entry>,
                     u2: set<Entry>, v2: set<Entry>, complete: bool)
    requires PageOK(page, u, v, q, limit) && page.next.Some? && limit >= 1
    requires u <= u2 && v <= v2 && Lists(rest, u2, v2, q.(cursor := page.next), complete)
    ensures Lists(page.data + rest, u, v2, q, complete)
  {
    var last := page.data[limit - 1];
    assert last in Elems(page.data) && last in Hits(v, q);
    NextHits(u2, q, last);
    NextHits(v2, q, last);
    HitsGrow(u, u2, q);
    HitsGrow(v, v2, q);
    var s := page.data + rest;
    forall i, j | 0 <= i < j < |s| ensures Newer(s[i], s[j]) {
      if i < limit <= j {
        assert s[j] in Elems(rest) && Newer(last, s[j]);
        if i < limit - 1 { NewerTransitive(s[i], last, s[j]); }
      }
    }
    assert Elems(s) == Elems(page.data) + Elems(rest);
  }

  /** The readings of successive pages, and with them what the tiers held, only move forward. */
  lemma {:induction false} LaterReadings(pages: seq<Page>, readings: seq<Reading>, states: seq<State>,
                                         steps: seq<Step>, q: EntryQuery, limit: nat)
    requires Run(states, steps) && Followed(pages, readings, states, q, limit)
    ensures var last := readings[|pages| - 1];
            && ReadsInOrder(last, states) && readings[0].coldAt <= last.coldAt
            && After(readings[0], states) <= After(last, states)
            && Before(readings[0], states) <= After(last, states)
  {
    NothingLost(states, steps, readings[0].hotAt[0], readings[0].coldAt);
    if |pages| > 1 {
      LaterReadings(pages[1..], readings[1..], states, steps, q.(cursor := pages[0].next), limit);
      NothingLost(states, steps, readings[0].coldAt, readings[|pages| - 1].coldAt);
    }
  }

  /**
    Following `nextCursor` while entries are stored and archived: what the pages hold is strictly
    newest first, so nothing comes twice, and all of it was asked for; when the last page gives no
    cursor, everything that was stored before the first page and asked for has come.
   */
  lemma {:induction false} PagingIsComplete(pages: seq<Page>, readings: seq<Reading>, states: seq<State>,
                                            steps: seq<Step>, q: EntryQuery, limit: nat)
    requires Run(states, steps) && Followed(pages, readings, states, q, limit)
    ensures var last := |pages| - 1;
            && ReadsInOrder(readings[last], states)
            && Lists(Concat(pages), Before(readings[0], states), After(readings[last], states), q,
                     pages[last].next.None?)
  {
    LaterReadings(pages, readings, states, steps, q, limit);
    if |pages| > 1 {
      var q' := q.(cursor := pages[0].next);
      PagingIsComplete(pages[1..], readings[1..], states, steps, q', limit);
      NothingLost(states, steps, readings[0].hotAt[0], readings[1].hotAt[0]);
      PageThenRest(pages[0], Before(readings[0], states), After(readings[0], states), q, limit,
                   Concat(pages[1..]), Before(readings[1], states),
                   After(readings[|pages| - 1], states), pages[|pages| - 1].next.None?);
    } else {
      assert Concat(pages) == pages[0].data;
    }
  }

  /** With only archiving going on, the pages are exactly everything asked for, newest first. */
  lemma PagingWhileArchiving(pages: seq<Page>, readings: seq<Reading>, states: seq<State>,
                             steps: seq<Step>, q: EntryQuery, limit: nat)
    requires Run(states, steps) && Followed(pages, readings, states, q, limit)
    requires pages[|pages| - 1].next.None?
    requires forall i :: readings[0].hotAt[0] <= i < |steps| ==> !steps[i].Store?
    ensures Agree(Hits(Before(readings[0], states), q))
    ensures Concat(pages) == NewestFirst(Hits(Before(readings[0], states), q))
  {
    var first, last := readings[0].hotAt[0], readings[|pages| - 1].coldAt;
    PagingIsComplete(pages, readings, states, steps, q, limit);
    LaterReadings(pages, readings, states, steps, q, limit);
    NothingLost(states, steps, first, last);
    HitsAgree(All(states[last]), q);
    DescendingUnique(Concat(pages), NewestFirst(Hits(All(states[first]), q)));
  }

  lemma {:induction false} ConcatSize(pages: seq<Page>, readings: seq<Reading>, states: seq<State>,
                                      q: EntryQuery, limit: nat)
    requires Followed(pages, readings, states, q, limit)
    ensures |Concat(pages)| >= (|pages| - 1) * limit
  {
    if |pages| > 1 {
      ConcatSize(pages[1..], readings[1..], states, q.(cursor := pages[0].next), limit);
      assert (|pages| - 1) * limit == (|pages[1..]| - 1) * limit + limit;
    }
  }

  /** Paging ends: every page but the last is full of hits not seen before. */
  lemma PagingEnds(pages: seq<Page>, readings: seq<Reading>, states: seq<State>, steps: seq<Step>,
                   q: EntryQuery, limit: nat)
    requires Run(states, steps) && Followed(pages, readings, states, q, limit)
    ensures ReadsInOrder(readings[|pages| - 1], states)
    ensures (|pages| - 1) * limit <= |Hits(After(readings[|pages| - 1], states), q)|
  {
    PagingIsComplete(pages, readings, states, steps, q, limit);
    ConcatSize(pages, readings, states, q, limit);
    DescendingSize(Concat(pages));
    SubsetSize(Elems(Concat(pages)), Hits(After(readings[|pages| - 1], states), q));
  }
}
