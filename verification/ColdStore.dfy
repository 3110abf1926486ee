/** The cold tier's read path: partitions by type and hour, the early-stopping scan, point lookup. */
module ColdStore {
  import opened Entries
  import opened Pages
  import opened ColdFilters
  import opened ColdEngine
  import opened ColdWriter
  import opened Layout

  /** A stored file and the partition its key names. */
  datatype Stored = Stored(part: Partition, file: File)

  /** What a listing of the tier returns. */
  type Tier = seq<Stored>

  datatype Window = Window(lower: int, upper: int)

  const LOOKUP_BEFORE_MS: int := HOUR_MS
  const LOOKUP_AFTER_MS: int := HOUR_MS

  ghost function TierRows(t: Tier): set<Entry> { set s, r | s in t && r in Rows(s.file) :: r }

  /** Files hold sorted rows of their own partition, and every copy of an entry is the same. */
  ghost predicate GoodTier(t: Tier) {
    && Agree(TierRows(t))
    && forall s :: s in t ==>
       && SoundGroups(s.file)
       && s.part.hourStart == FloorHour(s.part.hourStart)
       && forall r :: r in Rows(s.file) ==> PartitionOf(r) == s.part
  }

  /** The oracle: every matching row of the whole tier. */
  ghost function MatchSet(t: Tier, f: ColdFilter): set<Entry> {
    set r | r in TierRows(t) && Matches(r, f) :: Project(r, f.omitContent)
  }

  /** The files read for one hour: those of the filter's type, or of every type. */
  function HourFiles(t: Tier, f: ColdFilter, hour: int): seq<File> {
    if t == [] then []
    else (if (f.kind.Some? ==> t[0].part.kind == f.kind.value) && t[0].part.hourStart == hour
          then [t[0].file] else []) + HourFiles(t[1..], f, hour)
  }

  ghost function HourMatches(t: Tier, f: ColdFilter, hour: int): seq<Entry> {
    Collect(Rows(Groups(HourFiles(t, f, hour))), f)
  }

  /** The entries of `all` created in some hours. */
  ghost function InHours(all: set<Entry>, hours: set<int>): set<Entry> {
    set e | e in all && FloorHour(e.at) in hours
  }

  // ---------------------------------------------------------------- limits and repeated rows

  lemma {:induction false} DedupeSorted(s: seq<Entry>)
    requires Sorted(s)
    ensures Sorted(Dedupe(s))
  {
    if s != [] {
      var n := |s| - 1;
      DedupeSorted(s[..n]);
      var r := Dedupe(s[..n]);
      forall i | 0 <= i < |r| ensures !Newer(s[n], r[i]) {
        assert r[i] in s[..n];
        var j :| 0 <= j < n && s[j] == r[i];
      }
    }
  }

  /** Deduplicating a sorted page lists its set, newest first. */
  lemma DedupedTop(top: seq<Entry>)
    requires Sorted(top) && Agree(Elems(top))
    ensures Dedupe(top) == NewestFirst(Elems(top))
  {
    DedupeElems(top);
    DedupeSorted(top);
    SortedIsNewestFirst(Dedupe(top), Elems(top));
  }

  /**
    A limited read of one hour, deduplicated afterwards, is the newest `limit` distinct matches if and
    only if each of those has fewer than `limit` matching rows newer than it, repeats counted.
   */
  lemma LimitedReadExact(matched: seq<Entry>, limit: nat)
    requires Agree(Elems(matched))
    ensures Dedupe(Top(matched, Some(limit))) == TopK(Elems(matched), limit)
            <==> forall e :: e in TopK(Elems(matched), limit) ==> RowsNewer(matched, e) < limit
  {
    var top := Top(matched, Some(limit));
    DedupedPage(matched, limit);
    PartTopK(Elems(top), Elems(matched), limit);
    forall e | e in TopK(Elems(matched), limit) ensures e in Elems(top) <==> RowsNewer(matched, e) < limit {
      TopMember(matched, limit, e);
      assert e in Elems(matched);
    }
  }

  lemma DedupedPage(matched: seq<Entry>, limit: nat)
    requires Agree(Elems(matched))
    ensures var top := Top(matched, Some(limit));
            Elems(top) <= Elems(matched) && Agree(Elems(top)) && Dedupe(top) == TopK(Elems(top), limit)
  {
    var top := Top(matched, Some(limit));
    SortNewestSorted(matched);
    TopIdempotent(matched, Some(limit));
    DedupedTop(top);
    ElemsSize(top);
  }

  // ---------------------------------------------------------------- hours and their rows

  lemma {:induction false} HourFilesMember(t: Tier, f: ColdFilter, hour: int, file: File)
    ensures file in HourFiles(t, f, hour) <==>
            exists s :: s in t && s.file == file && s.part.hourStart == hour
                        && (f.kind.Some? ==> s.part.kind == f.kind.value)
  {
    if t != [] {
      HourFilesMember(t[1..], f, hour, file);
      assert forall s :: s in t <==> s == t[0] || s in t[1..];
    }
  }

  /** A matching row of the tier is among the matches of its own hour, and of no other. */
  lemma HourMatchesMember(t: Tier, f: ColdFilter, hour: int, e: Entry)
    requires GoodTier(t)
    ensures e in HourMatches(t, f, hour) <==> e in MatchSet(t, f) && FloorHour(e.at) == hour
  {
    var files := HourFiles(t, f, hour);
    CollectMember(Rows(Groups(files)), f, e);
    if r :| r in Rows(Groups(files)) && Matches(r, f) && e == Project(r, f.omitContent) {
      RowsOfFiles(files, r);
      var file :| file in files && r in Rows(file);
      HourFilesMember(t, f, hour, file);
      var s :| s in t && s.file == file && s.part.hourStart == hour;
      assert r in TierRows(t) && FloorHour(r.at) == hour;
    }
    if e in MatchSet(t, f) && FloorHour(e.at) == hour {
      var r :| r in TierRows(t) && Matches(r, f) && e == Project(r, f.omitContent);
      var s :| s in t && r in Rows(s.file);
      HourFilesMember(t, f, hour, s.file);
      RowsOfFiles(files, r);
    }
  }

  lemma ProjectAgrees(u: set<Entry>, v: set<Entry>, omit: bool)
    requires Agree(u) && forall e :: e in v ==> exists r :: r in u && e == Project(r, omit)
    ensures Agree(v)
  {
  }

  lemma MatchSetAgrees(t: Tier, f: ColdFilter)
    requires GoodTier(t)
    ensures Agree(MatchSet(t, f))
  {
  }

  lemma HourReadable(t: Tier, f: ColdFilter, hour: int)
    requires GoodTier(t)
    ensures SoundGroups(Groups(HourFiles(t, f, hour)))
    ensures Elems(HourMatches(t, f, hour)) == InHours(MatchSet(t, f), {hour})
    ensures Agree(Elems(HourMatches(t, f, hour)))
  {
    var files := HourFiles(t, f, hour);
    forall g | g in Groups(files) ensures SoundGroup(g) {
      GroupsMember(files, g);
      var file :| file in files && g in file;
      HourFilesMember(t, f, hour, file);
    }
    forall e ensures e in HourMatches(t, f, hour) <==> e in InHours(MatchSet(t, f), {hour}) {
      HourMatchesMember(t, f, hour, e);
    }
    MatchSetAgrees(t, f);
  }

  // ---------------------------------------------------------------- listing days and hours

  function InsertDesc(x: int, s: seq<int>): seq<int> {
    if s == [] || x > s[0] then [x] + s
    else if x == s[0] then s
    else [s[0]] + InsertDesc(x, s[1..])
  }

  function SortDesc(s: seq<int>): seq<int> {
    if s == [] then [] else InsertDesc(s[0], SortDesc(s[1..]))
  }

  ghost predicate StrictlyDesc(s: seq<int>) { forall i, j :: 0 <= i < j < |s| ==> s[i] > s[j] }

  lemma {:induction false} InsertDescFacts(x: int, s: seq<int>)
    requires StrictlyDesc(s)
    ensures StrictlyDesc(InsertDesc(x, s))
    ensures forall y :: y in InsertDesc(x, s) <==> y == x || y in s
  {
    if s != [] && x < s[0] {
      InsertDescFacts(x, s[1..]);
      var rest := InsertDesc(x, s[1..]);
      forall i | 0 <= i < |rest| ensures s[0] > rest[i] {
        assert rest[i] == x || rest[i] in s[1..];
      }
      assert forall y :: y in s <==> y == s[0] || y in s[1..];
    }
  }

  lemma {:induction false} SortDescFacts(s: seq<int>)
    ensures StrictlyDesc(SortDesc(s)) && Elems(SortDesc(s)) == Elems(s)
  {
    if s != [] {
      SortDescFacts(s[1..]);
      InsertDescFacts(s[0], SortDesc(s[1..]));
      assert forall y :: y in s <==> y == s[0] || y in s[1..];
      assert forall y :: y in SortDesc(s[1..]) <==> y in Elems(SortDesc(s[1..]));
      assert forall y :: y in s[1..] <==> y in Elems(s[1..]);
    }
  }

  /** The hours listed for the filter that overlap the bounds. */
  function ListedHours(t: Tier, f: ColdFilter, lower: Bound, upper: Bound): seq<int> {
    if t == [] then []
    else (var h := t[0].part.hourStart;
          if (f.kind.Some? ==> t[0].part.kind == f.kind.value)
             && Le(Fin(h), upper) && !Le(Fin(h + HOUR_MS), lower)
             && Le(Fin(FloorDay(h)), upper) && !Le(Fin(FloorDay(h) + DAY_MS), lower)
          then [h] else []) + ListedHours(t[1..], f, lower, upper)
  }

  function Days(hours: seq<int>): seq<int> {
    if hours == [] then [] else [FloorDay(hours[0])] + Days(hours[1..])
  }

  function HoursOfDay(hours: seq<int>, day: int): seq<int> {
    if hours == [] then []
    else (if FloorDay(hours[0]) == day then [hours[0]] else []) + HoursOfDay(hours[1..], day)
  }

  lemma {:induction false} DaysMember(hours: seq<int>, day: int)
    ensures day in Days(hours) <==> exists h :: h in hours && FloorDay(h) == day
    ensures forall h :: h in HoursOfDay(hours, day) <==> h in hours && FloorDay(h) == day
  {
    if hours != [] {
      DaysMember(hours[1..], day);
      assert forall h :: h in hours <==> h == hours[0] || h in hours[1..];
    }
  }

  lemma {:induction false} ListedHoursMember(t: Tier, f: ColdFilter, lower: Bound, upper: Bound, h: int)
    requires FloorHour(h) == h
    ensures h in ListedHours(t, f, lower, upper) <==>
            && Le(Fin(h), upper) && !Le(Fin(h + HOUR_MS), lower)
            && (exists s :: s in t && s.part.hourStart == h
                            && (f.kind.Some? ==> s.part.kind == f.kind.value))
  {
    FloorFacts(h);
    if t != [] {
      ListedHoursMember(t[1..], f, lower, upper, h);
      assert forall s :: s in t <==> s == t[0] || s in t[1..];
    }
  }

  lemma {:induction false} ListedHoursAligned(t: Tier, f: ColdFilter, lower: Bound, upper: Bound)
    requires forall s :: s in t ==> s.part.hourStart == FloorHour(s.part.hourStart)
    ensures Aligned(ListedHours(t, f, lower, upper))
  {
    if t != [] {
      ListedHoursAligned(t[1..], f, lower, upper);
      assert t[0] in t;
    }
  }

  ghost predicate Aligned(hours: seq<int>) { forall h :: h in hours ==> FloorHour(h) == h }

  /** No hour with a match is left out of the listing. */
  lemma ListedHoursComplete(t: Tier, f: ColdFilter)
    requires GoodTier(t)
    ensures var hours := Elems(ListedHours(t, f, LowerBound(f), UpperBound(f)));
            InHours(MatchSet(t, f), hours) == MatchSet(t, f)
  {
    var lower, upper := LowerBound(f), UpperBound(f);
    forall e | e in MatchSet(t, f) ensures FloorHour(e.at) in ListedHours(t, f, lower, upper) {
      var r :| r in TierRows(t) && Matches(r, f) && e == Project(r, f.omitContent);
      var s :| s in t && r in Rows(s.file);
      assert PartitionOf(r) == s.part;
      MatchesInBounds(r, f);
      FloorFacts(r.at);
      ListedHoursMember(t, f, lower, upper, FloorHour(r.at));
    }
  }

  // ---------------------------------------------------------------- the scan

  /** `kept` decides the newest `limit` of `whole`; without a limit it is all of it. */
  ghost predicate Keeps(kept: seq<Entry>, whole: set<Entry>, limit: Option<nat>) {
    if limit.None? then Elems(kept) == whole else Covers(Elems(kept), whole, limit.value)
  }

  /** `newest`: the sorted answer for a set and a limit. */
  ghost function Answer(whole: set<Entry>, limit: Option<nat>): seq<Entry>
    requires Agree(whole)
  {
    if limit.None? then NewestFirst(whole) else TopK(whole, limit.value)
  }

  lemma DedupeTop(results: seq<Entry>, limit: Option<nat>)
    requires Agree(Elems(results))
    ensures Top(Dedupe(results), limit) == Answer(Elems(results), limit)
  {
    DedupeElems(results);
    TopOfDistinct(Dedupe(results), if limit.Some? then limit.value else 0);
  }

  lemma AnswerKept(results: seq<Entry>, whole: set<Entry>, limit: Option<nat>)
    requires Agree(whole) && Keeps(results, whole, limit)
    ensures Agree(Elems(results)) && Top(Dedupe(results), limit) == Answer(whole, limit)
  {
    if limit.Some? { CoversTopK(Elems(results), whole, limit.value); }
    DedupeTop(results, limit);
  }

  /** `yes` once the page is full and nothing before `boundary` can displace a row of it. */
  method Certain(results: seq<Entry>, limit: Option<nat>, boundary: int, ghost whole: set<Entry>)
    returns (kept: seq<Entry>, yes: bool)
    requires Agree(whole) && Keeps(results, whole, limit)
    ensures Keeps(kept, whole, limit)
    ensures yes ==> limit.Some? && |Elems(kept)| == limit.value
                    && forall x :: x in kept ==> x.at >= boundary
  {
    kept := results;
    if limit.None? || |results| < limit.value { return kept, false; }
    AnswerKept(results, whole, limit);
    kept := Take(SortNewest(Dedupe(results)), limit);
    PageKeeps(kept, whole, limit.value);
    yes := limit.value > 0 && |kept| == limit.value && kept[limit.value - 1].at >= boundary;
    if yes { LastIsOldest(kept, boundary); }
  }

  lemma PageKeeps(page: seq<Entry>, whole: set<Entry>, limit: nat)
    requires Agree(whole) && page == TopK(whole, limit)
    ensures Covers(Elems(page), whole, limit) && |Elems(page)| == |page| && Descending(page)
  {
    TopKCovers(whole, limit);
    DescendingSize(page);
  }

  lemma LastIsOldest(page: seq<Entry>, boundary: int)
    requires Descending(page) && page != [] && page[|page| - 1].at >= boundary
    ensures forall x :: x in page ==> x.at >= boundary
  {
    forall x | x in page ensures x.at >= boundary {
      var i :| 0 <= i < |page| && page[i] == x;
      assert i < |page| - 1 ==> Newer(page[i], page[|page| - 1]);
    }
  }

  /** Older matches change nothing once the page is certain. */
  lemma CertainSkips(kept: seq<Entry>, whole: set<Entry>, more: set<Entry>, limit: Option<nat>,
                     boundary: int)
    requires Keeps(kept, whole, limit) && limit.Some? && |Elems(kept)| == limit.value
    requires forall x :: x in kept ==> x.at >= boundary
    requires forall y :: y in more ==> y.at < boundary
    ensures Keeps(kept, whole + more, limit)
  {
    forall e | e in whole + more && e !in Elems(kept)
      ensures |NewerIn(Elems(kept), e)| >= limit.value
    {
      if e !in whole { assert NewerIn(Elems(kept), e) == Elems(kept); }
    }
  }

  /** A match that reading its hour with the limit brings: too few rows of the hour are newer. */
  ghost predicate Unhidden(t: Tier, f: ColdFilter, limit: Option<nat>, e: Entry) {
    limit.Some? ==> RowsNewer(HourMatches(t, f, FloorHour(e.at)), e) < limit.value
  }

  /** What limited reads of all hours bring of the matches. */
  ghost function Readable(t: Tier, f: ColdFilter, limit: Option<nat>): set<Entry> {
    set e | e in MatchSet(t, f) && Unhidden(t, f, limit, e)
  }

  /** No repeated row hides one of the newest `limit` matches from the read of its hour. */
  ghost predicate LimitOK(t: Tier, f: ColdFilter, limit: Option<nat>)
    requires GoodTier(t)
  {
    MatchSetAgrees(t, f);
    limit.Some? ==> forall e :: e in TopK(MatchSet(t, f), limit.value) ==> Unhidden(t, f, limit, e)
  }

  /** What reading any one hour of the tier gives, as a part of all that can be read. */
  ghost predicate HourSlices(t: Tier, f: ColdFilter, limit: Option<nat>, all: set<Entry>) {
    Agree(all) && forall h :: Elems(Top(HourMatches(t, f, h), limit)) == InHours(all, {h})
  }

  /** One hour's files, read without another process removing any of them. */
  method ReadHour(t: Tier, f: ColdFilter, hour: int, limit: Option<nat>) returns (read: seq<Entry>)
    requires GoodTier(t)
    ensures read == Top(HourMatches(t, f, hour), limit)
  {
    HourReadable(t, f, hour);
    read := Read(HourFiles(t, f, hour), f, limit);
  }

  lemma ReadMore(t: Tier, f: ColdFilter, limit: Option<nat>, results: seq<Entry>, past: set<int>,
                 hour: int, all: set<Entry>)
    requires HourSlices(t, f, limit, all) && Keeps(results, InHours(all, past), limit)
    ensures Keeps(results + Top(HourMatches(t, f, hour), limit), InHours(all, past + {hour}), limit)
  {
    var read := Top(HourMatches(t, f, hour), limit);
    assert Elems(read) == InHours(all, {hour}) && Elems(results + read) == Elems(results) + Elems(read);
    assert InHours(all, past + {hour}) == InHours(all, past) + Elems(read);
    if limit.Some? { CoversUnion(Elems(results), InHours(all, past), Elems(read), Elems(read), limit.value); }
  }

  /** Hours before a boundary can be skipped once the page is certain there. */
  lemma SkipHours(results: seq<Entry>, past: set<int>, hours: set<int>, limit: Option<nat>,
                  boundary: int, all: set<Entry>)
    requires Keeps(results, InHours(all, past), limit)
    requires limit.Some? && |Elems(results)| == limit.value
    requires forall x :: x in results ==> x.at >= boundary
    requires forall h :: h in hours ==> h + HOUR_MS <= boundary
    ensures Keeps(results, InHours(all, past + hours), limit)
  {
    forall y | y in InHours(all, hours) ensures y.at < boundary { FloorFacts(y.at); }
    CertainSkips(results, InHours(all, past), InHours(all, hours), limit, boundary);
    assert InHours(all, past + hours) == InHours(all, past) + InHours(all, hours);
  }

  /** The hours of one day, newest first, until the page is certain. */
  method ScanDay(t: Tier, f: ColdFilter, limit: Option<nat>, hours: seq<int>, held: seq<Entry>,
                 ghost done: set<int>, ghost all: set<Entry>)
    returns (results: seq<Entry>)
    requires GoodTier(t) && HourSlices(t, f, limit, all) && StrictlyDesc(hours)
    requires Keeps(held, InHours(all, done), limit)
    ensures Keeps(results, InHours(all, done + Elems(hours)), limit)
  {
    results := held;
    assert done + Elems(hours[..0]) == done;
    for i := 0 to |hours|
      invariant Keeps(results, InHours(all, done + Elems(hours[..i])), limit)
    {
      ghost var past := done + Elems(hours[..i]);
      var certain;
      results, certain := Certain(results, limit, hours[i] + HOUR_MS, InHours(all, past));
      if certain {
        SkipRest(results, done, hours, i, limit, all);
        return;
      }
      var read := ReadHour(t, f, hours[i], limit);
      ReadMore(t, f, limit, results, past, hours[i], all);
      results := results + read;
      ElemsStep(hours, i);
      assert past + {hours[i]} == done + Elems(hours[..i + 1]);
    }
    assert hours[..|hours|] == hours;
  }

  lemma ElemsStep(s: seq<int>, i: nat)
    requires i < |s|
    ensures Elems(s[..i + 1]) == Elems(s[..i]) + {s[i]}
  {
    assert s[..i + 1] == s[..i] + [s[i]];
  }

  lemma SkipRest(results: seq<Entry>, done: set<int>, hours: seq<int>, i: nat, limit: Option<nat>,
                 all: set<Entry>)
    requires StrictlyDesc(hours) && i < |hours|
    requires Keeps(results, InHours(all, done + Elems(hours[..i])), limit)
    requires limit.Some? && |Elems(results)| == limit.value
    requires forall x :: x in results ==> x.at >= hours[i] + HOUR_MS
    ensures Keeps(results, InHours(all, done + Elems(hours)), limit)
  {
    SkipHours(results, done + Elems(hours[..i]), Elems(hours[i..]), limit, hours[i] + HOUR_MS, all);
    assert hours == hours[..i] + hours[i..];
    assert done + Elems(hours[..i]) + Elems(hours[i..]) == done + Elems(hours);
  }

  function ScanUpper(f: ColdFilter, window: Option<Window>): Bound {
    MinBound(UpperBound(f), if window.Some? then Fin(window.value.upper) else PosInf)
  }

  function ScanLower(f: ColdFilter, window: Option<Window>): Bound {
    MaxBound(LowerBound(f), if window.Some? then Fin(window.value.lower) else NegInf)
  }

  /** What a scan answers for: all that can be read, or with a window that of the hours it touches. */
  ghost function ScanSet(t: Tier, f: ColdFilter, limit: Option<nat>, window: Option<Window>): set<Entry> {
    var lower, upper := ScanLower(f, window), ScanUpper(f, window);
    if Le(lower, upper) then InHours(Readable(t, f, limit), Elems(ListedHours(t, f, lower, upper))) else {}
  }

  /** Without a window a scan answers for the whole tier. */
  lemma ScanSetWhole(t: Tier, f: ColdFilter, limit: Option<nat>)
    requires GoodTier(t)
    ensures ScanSet(t, f, limit, None) == Readable(t, f, limit) && Agree(MatchSet(t, f))
  {
    MatchSetAgrees(t, f);
    ListedHoursComplete(t, f);
    var hours := Elems(ListedHours(t, f, LowerBound(f), UpperBound(f)));
    assert forall e :: e in MatchSet(t, f) ==> e in InHours(MatchSet(t, f), hours);
    if !Le(LowerBound(f), UpperBound(f)) {
      forall r | r in TierRows(t) ensures !Matches(r, f) {
        if Matches(r, f) { MatchesInBounds(r, f); }
      }
    }
  }

  lemma SlicesOf(t: Tier, f: ColdFilter, limit: Option<nat>)
    requires GoodTier(t)
    ensures HourSlices(t, f, limit, Readable(t, f, limit))
  {
    MatchSetAgrees(t, f);
    forall h ensures Elems(Top(HourMatches(t, f, h), limit)) == InHours(Readable(t, f, limit), {h}) {
      HourSlice(t, f, limit, h);
    }
  }

  lemma HourSlice(t: Tier, f: ColdFilter, limit: Option<nat>, h: int)
    requires GoodTier(t)
    ensures Elems(Top(HourMatches(t, f, h), limit)) == InHours(Readable(t, f, limit), {h})
  {
    HourReadable(t, f, h);
    forall e ensures e in Elems(Top(HourMatches(t, f, h), limit)) <==> e in InHours(Readable(t, f, limit), {h}) {
      TopMemberOf(HourMatches(t, f, h), limit, e);
      assert e in HourMatches(t, f, h) <==> e in Elems(HourMatches(t, f, h));
      assert e in Elems(HourMatches(t, f, h)) <==> e in InHours(MatchSet(t, f), {h});
    }
  }

  /** Answering from what can be read is answering from every match exactly under `LimitOK`. */
  lemma ReadableExact(t: Tier, f: ColdFilter, limit: Option<nat>)
    requires GoodTier(t)
    ensures Agree(MatchSet(t, f)) && Agree(Readable(t, f, limit))
    ensures Answer(Readable(t, f, limit), limit) == Answer(MatchSet(t, f), limit) <==> LimitOK(t, f, limit)
  {
    MatchSetAgrees(t, f);
    if limit.Some? {
      PartTopK(Readable(t, f, limit), MatchSet(t, f), limit.value);
    } else {
      assert Readable(t, f, limit) == MatchSet(t, f);
    }
  }

  /**
    The walk over days and hours from the newest, which ends once no hour left can reach the page. The
    answer is that of sorting every match of the tier if and only if no repeated row hides one of its
    newest `limit` in the read of an hour.
   */
  method Scan(t: Tier, f: ColdFilter, limit: Option<nat>, window: Option<Window>)
    returns (r: seq<Entry>)
    requires GoodTier(t)
    ensures Agree(ScanSet(t, f, limit, window)) && r == Answer(ScanSet(t, f, limit, window), limit)
    ensures window.None? ==> Agree(MatchSet(t, f)) && (r == Answer(MatchSet(t, f), limit) <==> LimitOK(t, f, limit))
  {
    var upper, lower := ScanUpper(f, window), ScanLower(f, window);
    ScanSetWhole(t, f, limit);
    ReadableExact(t, f, limit);
    if !Le(lower, upper) { return []; }
    var listed := ListedHours(t, f, lower, upper);
    ListedHoursAligned(t, f, lower, upper);
    SlicesOf(t, f, limit);
    r := ScanDays(t, f, limit, listed, Readable(t, f, limit));
  }

  /** The days that hold the listed hours, newest first. */
  method ScanDays(t: Tier, f: ColdFilter, limit: Option<nat>, listed: seq<int>, ghost all: set<Entry>)
    returns (r: seq<Entry>)
    requires GoodTier(t) && HourSlices(t, f, limit, all) && Aligned(listed)
    ensures Agree(InHours(all, Elems(listed))) && r == Answer(InHours(all, Elems(listed)), limit)
  {
    var days := SortDesc(Days(listed));
    SortDescFacts(Days(listed));
    var results: seq<Entry> := [];
    assert HoursThrough(listed, days[..0]) == {} && InHours(all, {}) == {};
    for d := 0 to |days|
      invariant Keeps(results, InHours(all, HoursThrough(listed, days[..d])), limit)
    {
      ghost var past := HoursThrough(listed, days[..d]);
      var certain;
      results, certain := Certain(results, limit, days[d] + DAY_MS, InHours(all, past));
      if certain {
        RestOfDays(listed, days, d);
        SkipHours(results, past, HoursThrough(listed, days[d..]), limit, days[d] + DAY_MS, all);
        break;
      }
      var hours := SortDesc(HoursOfDay(listed, days[d]));
      SortDescFacts(HoursOfDay(listed, days[d]));
      results := ScanDay(t, f, limit, hours, results, past, all);
      NextDay(listed, days, d);
    }
    RestOfDays(listed, days, |days|);
    AnswerKept(results, InHours(all, Elems(listed)), limit);
    r := Take(SortNewest(Dedupe(results)), limit);
  }

  ghost function HoursThrough(listed: seq<int>, days: seq<int>): set<int> {
    set h | h in listed && FloorDay(h) in days
  }

  lemma NextDay(listed: seq<int>, days: seq<int>, d: nat)
    requires d < |days|
    ensures HoursThrough(listed, days[..d + 1])
         == HoursThrough(listed, days[..d]) + Elems(HoursOfDay(listed, days[d]))
  {
    DaysMember(listed, days[d]);
    assert days[..d + 1] == days[..d] + [days[d]];
  }

  /** The days not walked yet hold the rest of the hours, none later than the next day's end. */
  lemma RestOfDays(listed: seq<int>, days: seq<int>, d: nat)
    requires Elems(days) == Elems(Days(listed)) && d <= |days| && StrictlyDesc(days) && Aligned(listed)
    ensures HoursThrough(listed, days[..d]) + HoursThrough(listed, days[d..]) == Elems(listed)
    ensures d == |days| ==> HoursThrough(listed, days[..d]) == Elems(listed)
    ensures d < |days| ==> forall h :: h in HoursThrough(listed, days[d..]) ==>
                             h + HOUR_MS <= days[d] + DAY_MS
  {
    forall h | h in listed ensures FloorDay(h) in days[..d] || FloorDay(h) in days[d..] {
      DaysMember(listed, FloorDay(h));
      assert FloorDay(h) in Elems(days);
      assert days == days[..d] + days[d..];
    }
    forall h | h in HoursThrough(listed, days[d..]) && d < |days|
      ensures h + HOUR_MS <= days[d] + DAY_MS
    {
      FloorFacts(h);
      var i :| 0 <= i < |days[d..]| && days[d..][i] == FloorDay(h);
      assert days[d + i] <= days[d];
    }
  }

  // ---------------------------------------------------------------- queries, lookup, writes

  /** The scan of a query: from all that can be read, so from every match exactly under `LimitOK`. */
  method Query(t: Tier, q: EntryQuery, limit: Option<nat>) returns (r: seq<Entry>)
    requires GoodTier(t)
    ensures var f := ToColdFilter(q);
            && Agree(MatchSet(t, f)) && Agree(Readable(t, f, limit)) && r == Answer(Readable(t, f, limit), limit)
            && (r == Answer(MatchSet(t, f), limit) <==> LimitOK(t, f, limit))
  {
    ScanSetWhole(t, ToColdFilter(q), limit);
    r := Scan(t, ToColdFilter(q), limit, None);
  }

  function IdFilter(id: string): ColdFilter {
    ColdFilter(None, Some({id}), None, None, None, None, None, None, None, None, false)
  }

  /** Copies of one id never hide anything from a read limited to one row. */
  lemma IdFilterReadable(t: Tier, id: string)
    requires GoodTier(t)
    ensures Readable(t, IdFilter(id), Some(1)) == MatchSet(t, IdFilter(id))
  {
    var f := IdFilter(id);
    IdMatches(t, id);
    forall e | e in MatchSet(t, f) ensures Unhidden(t, f, Some(1), e) {
      var matched := HourMatches(t, f, FloorHour(e.at));
      HourReadable(t, f, FloorHour(e.at));
      forall x | x in matched ensures !Newer(x, e) {
        assert x in Elems(matched) && x == e;
        NewerIrreflexive(e);
      }
      NoneNewer(matched, e);
    }
  }

  lemma IdMatches(t: Tier, id: string)
    ensures MatchSet(t, IdFilter(id)) == set e | e in TierRows(t) && e.id == id
  {
    forall e ensures e in MatchSet(t, IdFilter(id)) <==> e in TierRows(t) && e.id == id {
      if e in TierRows(t) && e.id == id { assert Matches(e, IdFilter(id)) && Project(e, false) == e; }
    }
  }

  /** The entry with an id: the window around a UUIDv7's time is only a faster first try. */
  method Find(t: Tier, id: string) returns (r: Option<Entry>)
    requires GoodTier(t)
    ensures r.None? <==> forall e :: e in TierRows(t) ==> e.id != id
    ensures r.Some? ==> r.value in TierRows(t) && r.value.id == id
  {
    var f := IdFilter(id);
    IdFilterReadable(t, id);
    ScanSetWhole(t, f, Some(1));
    IdMatches(t, id);
    var at := UuidV7Time(id);
    var hits: seq<Entry> := [];
    if at.Some? {
      hits := Scan(t, f, Some(1), Some(Window(at.value - LOOKUP_BEFORE_MS, at.value + LOOKUP_AFTER_MS)));
      assert Elems(hits) <= MatchSet(t, f);
    }
    if hits == [] {
      hits := Scan(t, f, Some(1), None);
      assert hits == [] ==> MatchSet(t, f) == {};
    }
    r := if hits == [] then None else Some(hits[0]);
    assert r.Some? ==> r.value in Elems(hits);
    assert hits == [] ==> forall e :: e in TierRows(t) && e.id == id ==> e in MatchSet(t, f);
  }

  /** The entries of one partition, in the order given. */
  function Of(entries: seq<Entry>, part: Partition): seq<Entry> {
    if entries == [] then []
    else var n := |entries| - 1;
         Of(entries[..n], part) + (if PartitionOf(entries[n]) == part then [entries[n]] else [])
  }

  lemma {:induction false} OfMember(entries: seq<Entry>, part: Partition)
    ensures forall e :: e in Of(entries, part) <==> e in entries && PartitionOf(e) == part
  {
    if entries != [] {
      var n := |entries| - 1;
      OfMember(entries[..n], part);
      assert entries == entries[..n] + [entries[n]];
    }
  }

  /** A written file holds its partition's entries, oldest first, under sound statistics. */
  ghost predicate WrittenFrom(s: Stored, entries: seq<Entry>) {
    && multiset(Rows(s.file)) == multiset(Of(entries, s.part))
    && Ascending(Rows(s.file)) && SoundGroups(s.file)
    && s.part.hourStart == FloorHour(s.part.hourStart)
    && forall r :: r in Rows(s.file) ==> PartitionOf(r) == s.part
  }

  /** `groups` partitions `entries`, its keys listed in the order they first occurred. */
  ghost predicate Grouped(order: seq<Partition>, groups: map<Partition, seq<Entry>>, entries: seq<Entry>) {
    && Distinct(order)
    && (forall p :: p in order <==> p in groups)
    && (forall p :: p in groups ==> groups[p] == Of(entries, p) && groups[p] != [])
    && (forall p :: p !in groups ==> Of(entries, p) == [])
  }

  function AddToGroup(groups: map<Partition, seq<Entry>>, e: Entry): map<Partition, seq<Entry>> {
    var part := PartitionOf(e);
    groups[part := (if part in groups then groups[part] else []) + [e]]
  }

  lemma GroupStep(order: seq<Partition>, groups: map<Partition, seq<Entry>>, entries: seq<Entry>, e: Entry)
    requires Grouped(order, groups, entries)
    ensures Grouped(if PartitionOf(e) in groups then order else order + [PartitionOf(e)],
                    AddToGroup(groups, e), entries + [e])
  {
    assert (entries + [e])[..|entries|] == entries;
    assert forall p :: Of(entries + [e], p) == Of(entries, p) + (if PartitionOf(e) == p then [e] else []);
  }

  method GroupByPartition(entries: seq<Entry>)
    returns (order: seq<Partition>, groups: map<Partition, seq<Entry>>)
    ensures Grouped(order, groups, entries)
  {
    order, groups := [], map[];
    ghost var seen: seq<Entry> := [];
    NothingGrouped();
    for i := 0 to |entries|
      invariant seen == entries[..i] && Grouped(order, groups, seen)
    {
      order, groups := AddEntry(order, groups, entries[i], seen);
      seen := seen + [entries[i]];
    }
    assert entries[..|entries|] == entries;
  }

  method AddEntry(order: seq<Partition>, groups: map<Partition, seq<Entry>>, e: Entry, ghost seen: seq<Entry>)
    returns (order2: seq<Partition>, groups2: map<Partition, seq<Entry>>)
    requires Grouped(order, groups, seen)
    ensures Grouped(order2, groups2, seen + [e])
  {
    GroupStep(order, groups, seen, e);
    order2 := if PartitionOf(e) in groups then order else order + [PartitionOf(e)];
    groups2 := AddToGroup(groups, e);
  }

  lemma NothingGrouped()
    ensures Grouped([], map[], [])
  {
  }

  /** The first `n` partitions have been written, each as one file of exactly its entries. */
  ghost predicate WrittenParts(written: Tier, order: seq<Partition>, n: nat, entries: seq<Entry>) {
    && |written| == n <= |order|
    && forall k :: 0 <= k < n ==> written[k].part == order[k] && WrittenFrom(written[k], entries)
  }

  lemma WrittenNext(written: Tier, order: seq<Partition>, n: nat, entries: seq<Entry>, s: Stored)
    requires WrittenParts(written, order, n, entries) && n < |order|
    requires s.part == order[n] && WrittenFrom(s, entries)
    ensures WrittenParts(written + [s], order, n + 1, entries)
  {
  }

  /** What a write leaves behind: one file per partition of the batch, and every entry in one. */
  ghost predicate WrittenBatch(written: Tier, entries: seq<Entry>) {
    && (forall s :: s in written ==> WrittenFrom(s, entries))
    && (forall i, j :: 0 <= i < j < |written| ==> written[i].part != written[j].part)
    && (forall e :: e in entries ==> exists i :: 0 <= i < |written| && written[i].part == PartitionOf(e))
  }

  lemma AllWritten(written: Tier, order: seq<Partition>, groups: map<Partition, seq<Entry>>, entries: seq<Entry>)
    requires Grouped(order, groups, entries) && WrittenParts(written, order, |order|, entries)
    ensures WrittenBatch(written, entries)
  {
    forall e | e in entries ensures exists i :: 0 <= i < |written| && written[i].part == PartitionOf(e) {
      OfMember(entries, PartitionOf(e));
      var n :| 0 <= n < |order| && order[n] == PartitionOf(e);
      assert written[n].part == PartitionOf(e);
    }
  }

  /** The entries of a batch go to one sorted file for each type and hour among them. */
  method Write(entries: seq<Entry>, rowGroupSize: nat, sizeOf: seq<Group> -> nat) returns (written: Tier)
    requires rowGroupSize >= 1
    ensures WrittenBatch(written, entries)
  {
    var order, groups := GroupByPartition(entries);
    written := [];
    for i := 0 to |order|
      invariant WrittenParts(written, order, i, entries)
    {
      var stored := WriteOne(order, groups, i, entries, rowGroupSize, sizeOf);
      WrittenNext(written, order, i, entries, stored);
      written := written + [stored];
    }
    AllWritten(written, order, groups, entries);
  }

  method WriteOne(order: seq<Partition>, groups: map<Partition, seq<Entry>>, i: nat, ghost entries: seq<Entry>,
                  rowGroupSize: nat, sizeOf: seq<Group> -> nat)
    returns (stored: Stored)
    requires Grouped(order, groups, entries) && i < |order| && rowGroupSize >= 1
    ensures stored.part == order[i] && WrittenFrom(stored, entries)
  {
    assert order[i] in order;
    var file := EncodeFile(SortOldest(groups[order[i]]), rowGroupSize, sizeOf);
    EncodedFrom(file, order[i], entries);
    stored := Stored(order[i], file);
  }

  lemma EncodedFrom(file: File, part: Partition, entries: seq<Entry>)
    requires Rows(file) == SortOldest(Of(entries, part)) && Of(entries, part) != []
    requires forall g :: g in file ==> g.rows != [] && g == MakeGroup(g.rows)
    ensures WrittenFrom(Stored(part, file), entries)
  {
    SortOldestFacts(Of(entries, part));
    SameElems(Rows(file), Of(entries, part));
    OfMember(entries, part);
    WrittenSound(file);
    forall r | r in Rows(file) ensures PartitionOf(r) == part { assert r in Elems(Rows(file)); }
    var e := Of(entries, part)[0];
    assert PartitionOf(e) == part;
    FloorFacts(e.at);
    FloorTwice(e.at);
  }

  lemma FloorTwice(at: int)
    ensures FloorHour(FloorHour(at)) == FloorHour(at)
  {
  }

  /** Archiving a batch keeps the tier readable and adds exactly the batch to it. */
  lemma WriteKeepsTier(t: Tier, written: Tier, entries: seq<Entry>)
    requires GoodTier(t) && Agree(TierRows(t) + Elems(entries))
    requires WrittenBatch(written, entries)
    ensures GoodTier(t + written) && TierRows(t + written) == TierRows(t) + Elems(entries)
  {
    WrittenRows(written, entries);
    assert forall s :: s in t + written <==> s in t || s in written;
    assert TierRows(t + written) == TierRows(t) + TierRows(written);
  }

  lemma WrittenRows(written: Tier, entries: seq<Entry>)
    requires WrittenBatch(written, entries)
    ensures TierRows(written) == Elems(entries)
  {
    forall e ensures e in TierRows(written) <==> e in entries {
      if e in TierRows(written) {
        var s :| s in written && e in Rows(s.file);
        SameElems(Rows(s.file), Of(entries, s.part));
        OfMember(entries, s.part);
        assert e in Elems(Rows(s.file)) && e in Of(entries, s.part);
      }
      if e in entries {
        var i :| 0 <= i < |written| && written[i].part == PartitionOf(e);
        var s := written[i];
        assert WrittenFrom(s, entries);
        SameElems(Rows(s.file), Of(entries, s.part));
        OfMember(entries, s.part);
        assert e in Elems(Of(entries, s.part)) && e in Rows(s.file);
      }
    }
  }
}
