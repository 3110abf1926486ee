/**
  Entries in a ReplacingMergeTree: rows are only ever inserted, an update inserts a higher version
  and, when it moves the sorting key, a tombstone, and reads see the FINAL view.
 */
module ClickHouseEntries {
  import opened Entries

  datatype Row = Row(entry: Entry, version: int, deleted: bool)

  /** The sorting key: rows replace one another only within it. */
  datatype Key = Key(kind: string, at: int, id: string)

  function KeyOf(e: Entry): Key { Key(e.kind, e.at, e.id) }

  predicate SameKey(a: Row, b: Row) { KeyOf(a.entry) == KeyOf(b.entry) }

  /** FINAL keeps a row that no row of its key outranks, unless it is a tombstone. */
  predicate Visible(table: set<Row>, r: Row) {
    r in table && !r.deleted && forall x :: x in table && SameKey(x, r) ==> x.version <= r.version
  }

  /** Any number of background merges: each drops rows that another of their key outranks. */
  ghost predicate Merged(table: set<Row>, after: set<Row>) {
    after <= table && forall r :: r in table && r !in after ==>
      exists x :: x in after && SameKey(x, r) && x.version > r.version
  }

  // ---------------------------------------------------------------- the invariant

  /**
    `r` carries its id's value and outranks every other row of the id, save for a tombstone of its
    own version at the key it moved away from; at other keys no row of the id is left visible.
   */
  ghost predicate Current(table: set<Row>, r: Row) {
    && r in table && !r.deleted
    && (forall x :: x in table && x.entry.id == r.entry.id ==> Outranks(r, x))
    && (forall x :: x in table && x.entry.id == r.entry.id && !SameKey(x, r) && !x.deleted ==> Hidden(table, x))
  }

  predicate Outranks(r: Row, x: Row) {
    x == r || x.version < r.version || (x.version == r.version && x.deleted && !SameKey(x, r))
  }

  ghost predicate Hidden(table: set<Row>, x: Row) {
    exists y :: y in table && SameKey(y, x) && y.version > x.version
  }

  /** `live` is the plain map: each id's row, with the entry as stored and patched. */
  ghost predicate Inv(table: set<Row>, live: map<string, Row>) {
    && (forall id :: id in live ==> live[id].entry.id == id && Current(table, live[id]))
    && (forall x :: x in table ==> x.entry.id in live)
  }

  /** The FINAL view is the plain map: one visible row per id, of the greatest version written for it. */
  lemma FinalIsMap(table: set<Row>, live: map<string, Row>, r: Row)
    requires Inv(table, live)
    ensures Visible(table, r) <==> r.entry.id in live && r == live[r.entry.id]
    ensures r in table ==> r.entry.id in live && r.version <= live[r.entry.id].version
  {
  }

  /** Background merges change nothing that is seen. */
  lemma MergeKeeps(table: set<Row>, after: set<Row>, live: map<string, Row>)
    requires Inv(table, live) && Merged(table, after)
    ensures Inv(after, live)
    ensures forall r :: Visible(after, r) <==> Visible(table, r)
  {
  }


  // ---------------------------------------------------------------- store and update


  lemma OthersKeep(table: set<Row>, after: set<Row>, live: map<string, Row>, id: string)
    requires Inv(table, live) && table <= after
    requires forall x :: x in after && x !in table ==> x.entry.id == id
    ensures forall i :: i in live && i != id ==> Current(after, live[i])
  {
  }

  /** Storing an entry under a fresh id, with whatever version. */
  lemma StoreKeeps(table: set<Row>, live: map<string, Row>, r: Row)
    requires Inv(table, live) && r.entry.id !in live && !r.deleted
    ensures Inv(table + {r}, live[r.entry.id := r])
  {
  }

  /** The rows one update inserts: the new version, and a tombstone at the key it moved away from. */
  function UpdateRows(current: Entry, merged: Entry, version: int): set<Row> {
    if merged.kind != current.kind || merged.at != current.at
    then {Row(merged, version, false), Row(current, version, true)}
    else {Row(merged, version, false)}
  }

  lemma UpdateCurrent(table: set<Row>, current: Row, merged: Entry, version: int)
    requires Current(table, current) && merged.id == current.entry.id && version > current.version
    ensures Current(table + UpdateRows(current.entry, merged, version), Row(merged, version, false))
  {
  }

  /** Any update, whatever its patch moves, of an id read from the FINAL view. */
  lemma UpdateKeeps(table: set<Row>, live: map<string, Row>, merged: Entry, version: int)
    requires Inv(table, live) && merged.id in live && version > live[merged.id].version
    ensures Inv(table + UpdateRows(live[merged.id].entry, merged, version),
                live[merged.id := Row(merged, version, false)])
  {
    OthersKeep(table, table + UpdateRows(live[merged.id].entry, merged, version), live, merged.id);
    UpdateCurrent(table, live[merged.id], merged, version);
  }

  // ---------------------------------------------------------------- concurrent updates

  /** One update hides the other's row: both end at one key, or one stays and the other's tombstone covers it. */
  predicate OneHides(e: Entry, a: Entry, va: int, b: Entry, vb: int) {
    || (a.kind == b.kind && a.at == b.at)
    || (a.kind == e.kind && a.at == e.at && va < vb)
    || (b.kind == e.kind && b.at == e.at && vb < va)
  }

  /**
    Two updates that read the same row, at different versions: at least one of their rows is visible and
    nothing else of the id is; only one is if and only if one update hides the other's row.
   */
  lemma RacingUpdates(e: Entry, a: Entry, b: Entry, version: int, va: int, vb: int)
    requires a.id == e.id && b.id == e.id && va > version && vb > version && va != vb
    ensures var table := {Row(e, version, false)} + UpdateRows(e, a, va) + UpdateRows(e, b, vb);
            var ra, rb := Row(a, va, false), Row(b, vb, false);
            && (forall r :: Visible(table, r) ==> r == ra || r == rb)
            && (Visible(table, ra) || Visible(table, rb))
            && (!(Visible(table, ra) && Visible(table, rb)) <==> OneHides(e, a, va, b, vb))
  {
    var table := {Row(e, version, false)} + UpdateRows(e, a, va) + UpdateRows(e, b, vb);
    var ra, rb := Row(a, va, false), Row(b, vb, false);
    assert ra in table && rb in table;
    if KeyOf(a) != KeyOf(e) { assert Row(e, va, true) in table; }
    if KeyOf(b) != KeyOf(e) { assert Row(e, vb, true) in table; }
    assert SameKey(Row(e, version, false), Row(e, va, true)) && SameKey(Row(e, version, false), Row(e, vb, true));
    assert KeyOf(a) == KeyOf(b) ==> SameKey(ra, rb);
    assert KeyOf(a) == KeyOf(e) ==> SameKey(ra, Row(e, vb, true)) && SameKey(ra, Row(e, version, false));
    assert KeyOf(b) == KeyOf(e) ==> SameKey(rb, Row(e, va, true)) && SameKey(rb, Row(e, version, false));
  }

  /** Of rows of one key and version the engine keeps the one inserted last. */
  predicate Shown(rows: seq<Row>, i: nat)
    requires i < |rows|
  {
    !rows[i].deleted && forall j :: 0 <= j < |rows| && SameKey(rows[j], rows[i]) ==>
      rows[j].version < rows[i].version || (rows[j].version == rows[i].version && j <= i)
  }

  /** Where no two rows of a key share a version the order of insertion does not matter. */
  lemma ShownIsVisible(rows: seq<Row>, i: nat)
    requires i < |rows|
    requires forall j, k :: 0 <= j < k < |rows| && SameKey(rows[j], rows[k]) ==> rows[j].version != rows[k].version
    ensures Shown(rows, i) <==> Visible(Elems(rows), rows[i])
  {
    if Visible(Elems(rows), rows[i]) {
      forall j | 0 <= j < |rows| && SameKey(rows[j], rows[i]) ensures rows[j].version < rows[i].version || j == i {
        assert rows[j] in Elems(rows);
      }
    }
    if Shown(rows, i) {
      forall x | x in Elems(rows) && SameKey(x, rows[i]) ensures x.version <= rows[i].version {
        var j :| 0 <= j < |rows| && rows[j] == x;
      }
      assert rows[i] in Elems(rows);
    }
  }

  /** The rows of an update in the order they are inserted. */
  function UpdateList(current: Entry, merged: Entry, version: int): seq<Row> {
    [Row(merged, version, false)]
    + (if KeyOf(merged) != KeyOf(current) then [Row(current, version, true)] else [])
  }

  /**
    With any versions, equal ones included, `a` inserted first: only one of the two rows is shown if and
    only if both end at one key, or `a` stayed and is not above `b`'s tombstone, or `b` stayed and is below
    `a`'s.
   */
  lemma RacingUpdatesInOrder(e: Entry, a: Entry, b: Entry, version: int, va: int, vb: int)
    requires a.id == e.id && b.id == e.id && va > version && vb > version
    ensures var rows := [Row(e, version, false)] + UpdateList(e, a, va) + UpdateList(e, b, vb);
            var ib := 1 + |UpdateList(e, a, va)|;
            && rows[1] == Row(a, va, false) && rows[ib] == Row(b, vb, false)
            && (forall i :: 0 <= i < |rows| && i != 1 && i != ib ==> !Shown(rows, i))
            && (Shown(rows, 1) || Shown(rows, ib))
            && (!(Shown(rows, 1) && Shown(rows, ib)) <==>
                  || (a.kind == b.kind && a.at == b.at)
                  || (a.kind == e.kind && a.at == e.at && va <= vb)
                  || (b.kind == e.kind && b.at == e.at && vb < va))
  {
    var rows := [Row(e, version, false)] + UpdateList(e, a, va) + UpdateList(e, b, vb);
    var ib := 1 + |UpdateList(e, a, va)|;
    assert rows[0] == Row(e, version, false) && rows[1] == Row(a, va, false) && rows[ib] == Row(b, vb, false);
    assert KeyOf(a) != KeyOf(e) ==> rows[2] == Row(e, va, true);
    assert KeyOf(b) != KeyOf(e) ==> rows[ib + 1] == Row(e, vb, true);
    HiddenFirst(rows, ib, KeyOf(a) != KeyOf(e));
  }

  lemma HiddenFirst(rows: seq<Row>, ib: nat, moved: bool)
    requires 1 < |rows| && (if moved then 2 < |rows| && SameKey(rows[2], rows[0]) && rows[2].version > rows[0].version
                            else SameKey(rows[1], rows[0]) && rows[1].version > rows[0].version)
    ensures !Shown(rows, 0)
  {
  }

  // ---------------------------------------------------------------- versions

  /**
    The counter wraps within one millisecond, so a version is above the one before it exactly when the
    clock moved forward, or stood still and the counter did not wrap.
   */
  lemma NextVersionIncreases(now: int, counter: nat, later: int)
    requires counter < 1000
    ensures Version(later, NextCounter(counter)) > Version(now, counter)
            <==> later > now || (later == now && counter != 999)
  {
  }

  function NextCounter(counter: nat): nat { (counter + 1) % 1000 }

  function Version(now: int, counter: nat): int { now * 1000 + counter }

  class ClickHouse {
    var table: set<Row>
    var versionCounter: nat

    constructor ()
      ensures table == {} && versionCounter == 0 && Inv(table, map[])
    {
      table, versionCounter := {}, 0;
    }

    method NextVersion(now: int) returns (version: int)
      modifies this`versionCounter
      ensures versionCounter == NextCounter(old(versionCounter)) && version == Version(now, versionCounter)
    {
      versionCounter := (versionCounter + 1) % 1000;
      version := now * 1000 + versionCounter;
    }

    /** One insert, of a row with its own version for each entry. */
    method Store(es: seq<Entry>, now: int, ghost live: map<string, Row>) returns (ghost live2: map<string, Row>)
      requires Inv(table, live) && Fresh(es, live)
      modifies this
      ensures Inv(table, live2) && StoredInto(live, live2, es, |es|)
    {
      live2 := live;
      var values: set<Row> := {};
      for n := 0 to |es|
        invariant table == old(table) && Inv(table + values, live2) && StoredInto(live, live2, es, n)
      {
        var version := NextVersion(now);
        var row := Row(es[n], version, false);
        StoredNext(live, live2, es, n, row);
        StoreNext(table, values, live2, row);
        values := values + {row};
        live2 := live2[es[n].id := row];
      }
      table := table + values;
    }

    /** Reads the FINAL row of the id and inserts the patched one above it; a missing id is left alone. */
    method Update(id: string, patch: Entry -> Entry, now: int, ghost live: map<string, Row>)
      returns (ghost live2: map<string, Row>)
      requires Inv(table, live)
      modifies this
      ensures Inv(table, live2) && PatchedIn(live, live2, id, patch)
    {
      live2 := live;
      var existing := Find(id, live);
      if existing.None? { return; }
      var current := existing.value.entry;
      var merged := patch(current).(id := current.id);
      var next := NextVersion(now);
      var version := if existing.value.version + 1 > next then existing.value.version + 1 else next;
      UpdateKeeps(table, live, merged, version);
      table := table + UpdateRows(current, merged, version);
      live2 := live[id := Row(merged, version, false)];
    }

    /** `SELECT … FINAL WHERE id = … LIMIT 1`. */
    method Find(id: string, ghost live: map<string, Row>) returns (row: Option<Row>)
      requires Inv(table, live)
      ensures row == if id in live then Some(live[id]) else None
    {
      var rows := set r | r in table && r.entry.id == id && Visible(table, r);
      FoundRows(table, live, id, rows);
      if rows == {} { return None; }
      var r :| r in rows;
      row := Some(r);
    }
  }

  ghost predicate Fresh(es: seq<Entry>, live: map<string, Row>) {
    && (forall i :: 0 <= i < |es| ==> es[i].id !in live)
    && (forall i, j :: 0 <= i < j < |es| ==> es[i].id != es[j].id)
  }

  /** `live2` is `live` with exactly the first `n` entries of `es` added. */
  ghost predicate StoredInto(live: map<string, Row>, live2: map<string, Row>, es: seq<Entry>, n: nat)
    requires n <= |es|
  {
    && (forall id :: id in live2 <==> id in live || exists i :: 0 <= i < n && es[i].id == id)
    && (forall id :: id in live ==> id in live2 && live2[id] == live[id])
    && (forall i :: 0 <= i < n ==> es[i].id in live2 && live2[es[i].id].entry == es[i])
  }

  lemma StoredNext(live: map<string, Row>, live2: map<string, Row>, es: seq<Entry>, n: nat, row: Row)
    requires Fresh(es, live) && n < |es| && StoredInto(live, live2, es, n) && row.entry == es[n]
    ensures es[n].id !in live2 && StoredInto(live, live2[es[n].id := row], es, n + 1)
  {
  }

  lemma StoreNext(table: set<Row>, values: set<Row>, live: map<string, Row>, row: Row)
    requires Inv(table + values, live) && row.entry.id !in live && !row.deleted
    ensures Inv(table + (values + {row}), live[row.entry.id := row])
  {
    StoreKeeps(table + values, live, row);
    assert table + (values + {row}) == (table + values) + {row};
  }

  /** `live2` is `live` with the patch applied to one id, at a higher version. */
  ghost predicate PatchedIn(live: map<string, Row>, live2: map<string, Row>, id: string, patch: Entry -> Entry) {
    if id !in live then live2 == live
    else
      && live2.Keys == live.Keys && (forall i :: i in live && i != id ==> live2[i] == live[i])
      && live2[id].entry == patch(live[id].entry).(id := id) && live2[id].version > live[id].version
  }

  lemma FoundRows(table: set<Row>, live: map<string, Row>, id: string, rows: set<Row>)
    requires Inv(table, live) && rows == set r | r in table && r.entry.id == id && Visible(table, r)
    ensures rows == if id in live then {live[id]} else {}
  {
  }

  // ---------------------------------------------------------------- whole runs

  datatype Op = StoreOp(row: Row) | UpdateOp(merged: Entry, version: int) | MergeOp

  /** One insert, one sequential update, or a round of background merges. */
  ghost predicate Next(table: set<Row>, op: Op, after: set<Row>) {
    match op
    case StoreOp(r) => !r.deleted && (forall x :: x in table ==> x.entry.id != r.entry.id) && after == table + {r}
    case UpdateOp(merged, version) =>
      if forall r :: Visible(table, r) ==> r.entry.id != merged.id then after == table
      else exists r :: Visible(table, r) && r.entry.id == merged.id && version > r.version
                       && after == table + UpdateRows(r.entry, merged, version)
    case MergeOp => Merged(table, after)
  }

  ghost predicate Run(tables: seq<set<Row>>, ops: seq<Op>) {
    && |tables| == |ops| + 1 && tables[0] == {}
    && forall i :: 0 <= i < |ops| ==> Next(tables[i], ops[i], tables[i + 1])
  }

  function Effect(m: map<string, Entry>, op: Op): map<string, Entry> {
    match op
    case StoreOp(r) => m[r.entry.id := r.entry]
    case UpdateOp(merged, _) => if merged.id in m then m[merged.id := merged] else m
    case MergeOp => m
  }

  /** The plain map from id to entry, with every patch applied. */
  function Plain(ops: seq<Op>): map<string, Entry> {
    if ops == [] then map[] else Effect(Plain(ops[..|ops| - 1]), ops[|ops| - 1])
  }

  ghost predicate Mirrors(live: map<string, Row>, plain: map<string, Entry>) {
    live.Keys == plain.Keys && forall id :: id in live ==> live[id].entry == plain[id]
  }

  /** `live` has the greatest version of each id in any of the tables. */
  ghost predicate Greatest(live: map<string, Row>, tables: seq<set<Row>>) {
    forall j, r :: 0 <= j < |tables| && r in tables[j] ==> r.entry.id in live && r.version <= live[r.entry.id].version
  }

  /** `live2` follows `live`, version by version. */
  ghost predicate Follows(live: map<string, Row>, live2: map<string, Row>) {
    forall id :: id in live ==> id in live2 && live[id].version <= live2[id].version
  }

  lemma SetBoth(live: map<string, Row>, plain: map<string, Entry>, r: Row)
    requires Mirrors(live, plain)
    requires r.entry.id in live ==> r.version >= live[r.entry.id].version
    ensures Mirrors(live[r.entry.id := r], plain[r.entry.id := r.entry]) && Follows(live, live[r.entry.id := r])
  {
  }

  lemma FreshToLive(table: set<Row>, live: map<string, Row>, id: string)
    requires Inv(table, live) && forall x :: x in table ==> x.entry.id != id
    ensures id !in live
  {
  }

  /** What an update reads is the id's row of the plain map. */
  lemma UpdateReads(table: set<Row>, live: map<string, Row>, merged: Entry, version: int, after: set<Row>)
    requires Inv(table, live) && Next(table, UpdateOp(merged, version), after)
    ensures merged.id !in live ==> after == table
    ensures merged.id in live ==> version > live[merged.id].version
                                  && after == table + UpdateRows(live[merged.id].entry, merged, version)
  {
  }

  lemma NextMirrors(table: set<Row>, op: Op, after: set<Row>, live: map<string, Row>, plain: map<string, Entry>)
    returns (live2: map<string, Row>)
    requires Inv(table, live) && Next(table, op, after) && Mirrors(live, plain)
    ensures Inv(after, live2) && Mirrors(live2, Effect(plain, op)) && Follows(live, live2)
  {
    match op
    case StoreOp(r) =>
      FreshToLive(table, live, r.entry.id);
      StoreKeeps(table, live, r);
      SetBoth(live, plain, r);
      live2 := live[r.entry.id := r];
    case UpdateOp(merged, version) =>
      UpdateReads(table, live, merged, version, after);
      if merged.id in live {
        UpdateKeeps(table, live, merged, version);
        SetBoth(live, plain, Row(merged, version, false));
        live2 := live[merged.id := Row(merged, version, false)];
      } else {
        live2 := live;
      }
    case MergeOp =>
      MergeKeeps(table, after, live);
      live2 := live;
  }

  /**
    After any run the FINAL view is the plain map with patches applied: each of its ids has exactly one
    visible row, with its entry and the greatest version ever written for the id.
   */
  lemma {:induction false} FinalIsPlain(tables: seq<set<Row>>, ops: seq<Op>) returns (live: map<string, Row>)
    requires Run(tables, ops)
    ensures Inv(tables[|ops|], live) && Mirrors(live, Plain(ops)) && Greatest(live, tables)
    ensures forall r :: Visible(tables[|ops|], r) <==> r.entry.id in live && r == live[r.entry.id]
  {
    var n := |ops|;
    if n == 0 {
      live := map[];
    } else {
      var before := FinalIsPlain(tables[..n], ops[..n - 1]);
      live := NextMirrors(tables[n - 1], ops[n - 1], tables[n], before, Plain(ops[..n - 1]));
      forall j, r | 0 <= j < |tables| && r in tables[j]
        ensures r.entry.id in live && r.version <= live[r.entry.id].version
      {
        if j < n { assert r in tables[..n][j]; } else { FinalIsMap(tables[n], live, r); }
      }
    }
    forall r { FinalIsMap(tables[n], live, r); }
  }
}
