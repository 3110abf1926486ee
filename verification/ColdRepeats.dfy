/** A batch that was archived twice, and what a limited read of the tier makes of it. */
module ColdRepeats {
  import opened Entries
  import opened Pages
  import opened ColdFilters
  import opened ColdEngine
  import opened ColdWriter
  import opened ColdStore
  import opened Layout

  const AnyEntry: ColdFilter := ColdFilter(None, None, None, None, None, None, None, None, None, None, false)

  /** One hour with two files: the first archive of `e`, and a later one of `y` and again `e`. */
  function TwiceArchived(e: Entry, y: Entry): Tier {
    [Stored(PartitionOf(e), [MakeGroup([e])]), Stored(PartitionOf(e), [MakeGroup([y, e])])]
  }

  predicate Neighbours(e: Entry, y: Entry) {
    Newer(e, y) && PartitionOf(e) == PartitionOf(y) && e.id != y.id
  }

  lemma RowsOfGroup(rows: seq<Entry>)
    requires rows != []
    ensures Rows([MakeGroup(rows)]) == rows
  {
    assert [MakeGroup(rows)][1..] == [];
  }

  lemma TwiceArchivedIsGood(e: Entry, y: Entry)
    requires Neighbours(e, y)
    ensures TierRows(TwiceArchived(e, y)) == {e, y} && GoodTier(TwiceArchived(e, y))
  {
    var t := TwiceArchived(e, y);
    NewerOrder(e, y, e);
    RowsOfGroup([e]);
    RowsOfGroup([y, e]);
    WrittenSound([MakeGroup([e])]);
    WrittenSound([MakeGroup([y, e])]);
    FloorTwice(e.at);
    assert t[1] in t && e in Rows(t[1].file) && y in Rows(t[1].file);
    forall r ensures r in TierRows(t) <==> r in {e, y} {
    }
  }

  /** The hour's matches: the newer entry twice, the older once. */
  lemma TwiceArchivedMatches(e: Entry, y: Entry)
    ensures HourMatches(TwiceArchived(e, y), AnyEntry, FloorHour(e.at)) == [e, y, e]
  {
    var t, h := TwiceArchived(e, y), FloorHour(e.at);
    assert t[1..] == [t[1]] && t[1..][1..] == [];
    assert HourFiles(t[1..], AnyEntry, h) == [t[1].file];
    assert HourFiles(t, AnyEntry, h) == [t[0].file, t[1].file];
    var files := [t[0].file, t[1].file];
    assert files[1..] == [t[1].file] && files[1..][1..] == [];
    assert Groups([t[1].file]) == t[1].file;
    assert Groups(files) == t[0].file + t[1].file;
    RowsAppend(t[0].file, t[1].file);
    RowsOfGroup([e]);
    RowsOfGroup([y, e]);
    assert [e] + [y, e] == [e, y, e];
    CollectAll([e, y, e]);
  }

  lemma {:induction false} CollectAll(rows: seq<Entry>)
    ensures Collect(rows, AnyEntry) == rows
  {
    if rows != [] {
      CollectAll(rows[1..]);
      assert Matches(rows[0], AnyEntry) && Project(rows[0], false) == rows[0];
      assert rows == [rows[0]] + rows[1..];
    }
  }

  lemma TwoNewer(e: Entry, y: Entry)
    requires Newer(e, y)
    ensures RowsNewer([e, y, e], y) == 2 && RowsNewer([e, y, e], e) == 0
  {
    NewerIrreflexive(e);
    NewerIrreflexive(y);
    NewerOrder(e, y, e);
    var s, rest, last := [e, y, e], [y, e], [e];
    assert s[1..] == rest && rest[1..] == last && last[1..] == [];
    assert RowsNewer(last, y) == 1 && RowsNewer(last, e) == 0;
    assert RowsNewer(rest, y) == 1 && RowsNewer(rest, e) == 0;
  }

  lemma TwiceArchivedHides(e: Entry, y: Entry)
    requires Neighbours(e, y) && GoodTier(TwiceArchived(e, y))
    requires MatchSet(TwiceArchived(e, y), AnyEntry) == {e, y}
    ensures Readable(TwiceArchived(e, y), AnyEntry, Some(2)) == {e}
    ensures !LimitOK(TwiceArchived(e, y), AnyEntry, Some(2))
  {
    var t := TwiceArchived(e, y);
    TwiceArchivedMatches(e, y);
    TwoNewer(e, y);
    OneHidden(t, e, y);
  }

  lemma OneHidden(t: Tier, e: Entry, y: Entry)
    requires GoodTier(t) && MatchSet(t, AnyEntry) == {e, y} && e != y
    requires !Unhidden(t, AnyEntry, Some(2), y) && Unhidden(t, AnyEntry, Some(2), e)
    ensures Readable(t, AnyEntry, Some(2)) == {e} && !LimitOK(t, AnyEntry, Some(2))
  {
    MatchSetAgrees(t, AnyEntry);
    SmallTopK({e, y}, y);
  }

  lemma SmallTopK(u: set<Entry>, y: Entry)
    requires Agree(u) && y in u && |u| <= 2
    ensures y in TopK(u, 2)
  {
    assert TopK(u, 2) == NewestFirst(u);
  }

  lemma AllMatch(t: Tier)
    ensures MatchSet(t, AnyEntry) == TierRows(t)
  {
    forall x ensures x in MatchSet(t, AnyEntry) <==> x in TierRows(t) {
      if x in TierRows(t) { assert Matches(x, AnyEntry) && Project(x, false) == x; }
    }
  }

  /** A scan limited to two rows then returns one of the tier's two entries: the other is lost. */
  method RepeatHides(e: Entry, y: Entry) returns (r: seq<Entry>)
    requires Neighbours(e, y)
    ensures GoodTier(TwiceArchived(e, y)) && MatchSet(TwiceArchived(e, y), AnyEntry) == {e, y}
    ensures !LimitOK(TwiceArchived(e, y), AnyEntry, Some(2)) && Elems(r) == {e}
  {
    var t := TwiceArchived(e, y);
    TwiceArchivedIsGood(e, y);
    AllMatch(t);
    TwiceArchivedHides(e, y);
    ScanSetWhole(t, AnyEntry, Some(2));
    r := Scan(t, AnyEntry, Some(2), None);
    assert |TopK({e}, 2)| == 1 && Elems(TopK({e}, 2)) <= {e};
    assert r[0] in Elems(r);
  }
}
