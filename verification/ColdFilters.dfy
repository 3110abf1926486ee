/** The query record and its cold-tier form: the full row predicate and the time bounds it implies. */
module ColdFilters {
  import opened Entries
  import opened TextSearch

  /** A JavaScript number that may be infinite. */
  datatype Bound = NegInf | Fin(ms: int) | PosInf

  predicate Le(a: Bound, b: Bound) {
    a.NegInf? || b.PosInf? || (a.Fin? && b.Fin? && a.ms <= b.ms)
  }

  function MinBound(a: Bound, b: Bound): Bound { if Le(a, b) then a else b }
  function MaxBound(a: Bound, b: Bound): Bound { if Le(a, b) then b else a }

  /** `limit` is the raw option: `ResolveLimit` turns a missing or non-positive one into the default. */
  datatype EntryQuery = EntryQuery(
    kind: Option<string>, ids: Option<seq<string>>, batchId: Option<string>, traceId: Option<string>,
    family: Option<string>, tag: Option<string>, search: Option<string>,
    before: Option<int>, after: Option<int>, cursor: Option<Position>,
    limit: Option<int>, omitContent: bool)

  datatype ColdFilter = ColdFilter(
    kind: Option<string>, ids: Option<set<string>>, batchId: Option<string>, traceId: Option<string>,
    family: Option<string>, tag: Option<string>, search: Option<string>,
    before: Option<int>, after: Option<int>, cursor: Option<Position>,
    omitContent: bool)

  const DEFAULT_LIMIT: nat := 50

  function ResolveLimit(limit: Option<int>): (r: nat)
    ensures r >= 1
    ensures forall n: int :: limit == Some(n) && n > 0 ==> r == n
    ensures limit == None || limit.value <= 0 ==> r == 50
  {
    if limit.Some? && limit.value > 0 then limit.value else DEFAULT_LIMIT
  }

  function ToColdFilter(q: EntryQuery): ColdFilter {
    ColdFilter(q.kind,
               if q.ids.Some? then Some(Elems(q.ids.value)) else None,
               q.batchId, q.traceId, q.family, q.tag,
               if q.search.Some? then Some(Lower(q.search.value)) else None,
               q.before, q.after, q.cursor, q.omitContent)
  }

  /** No row after this instant matches. */
  function UpperBound(f: ColdFilter): Bound {
    var upper := if f.before.Some? then MinBound(PosInf, Fin(f.before.value - 1)) else PosInf;
    if f.cursor.Some? then MinBound(upper, Fin(f.cursor.value.at)) else upper
  }

  /** No row before this instant matches. */
  function LowerBound(f: ColdFilter): Bound {
    if f.after.Some? then Fin(f.after.value + 1) else NegInf
  }

  /** The full filter, with early returns in the order of the source; `MatchesWanted` says what it means. */
  predicate Matches(e: Entry, f: ColdFilter) {
    if f.ids.Some? && e.id !in f.ids.value then false
    else if f.kind.Some? && e.kind != f.kind.value then false
    else if f.batchId.Some? && e.batchId != f.batchId.value then false
    else if f.traceId.Some? && e.traceId != f.traceId then false
    else if f.family.Some? && e.family != f.family then false
    else if f.tag.Some? && f.tag.value !in e.tags then false
    else if f.before.Some? && e.at >= f.before.value then false
    else if f.after.Some? && e.at <= f.after.value then false
    else if f.cursor.Some?
            && (e.at > f.cursor.value.at
                || (e.at == f.cursor.value.at && !Less(e.id, f.cursor.value.id))) then false
    else if f.search.Some?
            && (e.content.None? || !Contains(Lower(e.content.value), f.search.value)) then false
    else true
  }

  /** What a caller of a query asks for, cursor aside: the conjunction of the given predicates. */
  predicate Wanted(e: Entry, q: EntryQuery) {
    && (q.ids.Some? ==> e.id in q.ids.value)
    && (q.kind.Some? ==> e.kind == q.kind.value)
    && (q.batchId.Some? ==> e.batchId == q.batchId.value)
    && (q.traceId.Some? ==> e.traceId == q.traceId)
    && (q.family.Some? ==> e.family == q.family)
    && (q.tag.Some? ==> q.tag.value in e.tags)
    && (q.before.Some? ==> e.at < q.before.value)
    && (q.after.Some? ==> e.at > q.after.value)
    && (q.search.Some? ==> e.content.Some? && Contains(Lower(e.content.value), Lower(q.search.value)))
  }

  /** A search asks for nothing else than a content that holds its text in any case. */
  lemma WantedSearch(e: Entry, q: EntryQuery)
    ensures Wanted(e, q) <==>
            Wanted(e, q.(search := None))
            && (q.search.Some? ==> e.content.Some? && Holds(e.content.value, q.search.value))
  {
    if q.search.Some? && e.content.Some? { SearchExact(e.content.value, q.search.value); }
  }

  /** An entry as a page carries it: content dropped when the query omits it. */
  function Project(e: Entry, omitContent: bool): (p: Entry)
    ensures p.content == if omitContent then None else e.content
    ensures p.id == e.id && p.at == e.at && p.kind == e.kind && p.batchId == e.batchId && p.traceId == e.traceId
            && p.family == e.family && p.tags == e.tags && p.sequence == e.sequence
  {
    if omitContent then e.(content := None) else e
  }

  /** The entries a query is after: wanted, and behind its cursor. */
  ghost function Hits(s: set<Entry>, q: EntryQuery): set<Entry> {
    set e | e in s && Wanted(e, q) && (q.cursor.Some? ==> Behind(e, q.cursor.value)) :: Project(e, q.omitContent)
  }

  /** A query with a search hits exactly what it would without, of which the content holds its text in any case. */
  lemma SearchHits(s: set<Entry>, q: EntryQuery)
    ensures Hits(s, q) == set e | e in s && Wanted(e, q.(search := None))
                                  && (q.search.Some? ==> e.content.Some? && Holds(e.content.value, q.search.value))
                                  && (q.cursor.Some? ==> Behind(e, q.cursor.value)) :: Project(e, q.omitContent)
  {
    forall e ensures Wanted(e, q) <==>
                     Wanted(e, q.(search := None))
                     && (q.search.Some? ==> e.content.Some? && Holds(e.content.value, q.search.value))
    {
      WantedSearch(e, q);
    }
  }

  predicate WithinBounds(at: int, f: ColdFilter) {
    Le(LowerBound(f), Fin(at)) && Le(Fin(at), UpperBound(f))
  }

  /**
    The cold predicate accepts exactly the wanted entries strictly behind the cursor, and no row
    outside the two time bounds: skipping by them loses nothing.
   */
  lemma MatchesWanted(e: Entry, q: EntryQuery)
    ensures Matches(e, ToColdFilter(q)) <==>
            Wanted(e, q) && (q.cursor.Some? ==> Behind(e, q.cursor.value))
    ensures Matches(e, ToColdFilter(q)) ==> WithinBounds(e.at, ToColdFilter(q))
  {
  }

  lemma MatchesInBounds(e: Entry, f: ColdFilter)
    requires Matches(e, f)
    ensures WithinBounds(e.at, f)
  {
  }

  /**
    The bounds are exact for a filter on time alone: a row is accepted if and only if it is
    within them and, on the cursor's own millisecond, sorts behind the cursor's id.
   */
  lemma TimeFilterExact(e: Entry, before: Option<int>, after: Option<int>, cursor: Option<Position>)
    ensures
      var f := ColdFilter(None, None, None, None, None, None, None, before, after, cursor, false);
      Matches(e, f) <==>
      WithinBounds(e.at, f)
      && (cursor.Some? && e.at == cursor.value.at ==> Less(e.id, cursor.value.id))
  {
  }
}
