/** Writing cold files: the row-group builder, partitioned writes, and the k-way merge of compaction. */
module ColdWriter {
  import opened Entries
  import opened Pages
  import opened ColdFilters
  import opened ColdEngine
  import opened Layout

  // ---------------------------------------------------------------- oldest first

  function InsertOldest(e: Entry, s: seq<Entry>): seq<Entry> {
    if s == [] || !Newer(e, s[0]) then [e] + s else [s[0]] + InsertOldest(e, s[1..])
  }

  /** `sort(oldestFirst)`: stable, ascending. */
  function SortOldest(s: seq<Entry>): seq<Entry> {
    if s == [] then [] else InsertOldest(s[0], SortOldest(s[1..]))
  }

  lemma {:induction false} InsertOldestElems(e: Entry, s: seq<Entry>)
    ensures multiset(InsertOldest(e, s)) == multiset(s) + multiset{e}
    ensures forall x :: x in InsertOldest(e, s) <==> x == e || x in s
  {
    if s != [] && Newer(e, s[0]) {
      InsertOldestElems(e, s[1..]);
      assert s == [s[0]] + s[1..];
    }
  }

  lemma {:induction false} InsertOldestFacts(e: Entry, s: seq<Entry>)
    requires Ascending(s)
    ensures Ascending(InsertOldest(e, s))
    ensures multiset(InsertOldest(e, s)) == multiset(s) + multiset{e}
  {
    InsertOldestElems(e, s);
    if s != [] {
      if Newer(e, s[0]) {
        InsertOldestFacts(e, s[1..]);
        InsertOldestElems(e, s[1..]);
        NewerOrder(e, s[0], e);
        var rest := InsertOldest(e, s[1..]);
        forall x | x in rest ensures !Newer(s[0], x) {
          assert x == e || x in s[1..];
        }
      } else {
        forall x | x in s ensures !Newer(e, x) { NewerOrder(x, s[0], e); }
      }
    }
  }

  lemma {:induction false} SortOldestFacts(s: seq<Entry>)
    ensures Ascending(SortOldest(s)) && multiset(SortOldest(s)) == multiset(s)
  {
    if s != [] {
      assert s == [s[0]] + s[1..];
      SortOldestFacts(s[1..]);
      InsertOldestFacts(s[0], SortOldest(s[1..]));
    }
  }

  /** Sorting rows that already are in file order moves nothing. */
  lemma {:induction false} SortOldestSorted(s: seq<Entry>)
    requires Ascending(s)
    ensures SortOldest(s) == s
  {
    if s != [] {
      SortOldestSorted(s[1..]);
      assert |s| > 1 ==> !Newer(s[0], s[1]);
      assert s == [s[0]] + s[1..];
    }
  }

  // ---------------------------------------------------------------- row groups

  function MinAt(rows: seq<Entry>): int
    requires rows != []
  {
    if |rows| == 1 || rows[0].at <= MinAt(rows[1..]) then rows[0].at else MinAt(rows[1..])
  }

  function MaxAt(rows: seq<Entry>): int
    requires rows != []
  {
    if |rows| == 1 || rows[0].at >= MaxAt(rows[1..]) then rows[0].at else MaxAt(rows[1..])
  }

  lemma {:induction false} MinMaxBound(rows: seq<Entry>)
    requires rows != []
    ensures forall r :: r in rows ==> MinAt(rows) <= r.at <= MaxAt(rows)
  {
    if |rows| > 1 {
      MinMaxBound(rows[1..]);
      assert forall r :: r in rows ==> r == rows[0] || r in rows[1..];
    }
  }

  /** A row group as the writer emits it, with the statistics of its `created_at` column. */
  function MakeGroup(rows: seq<Entry>): Group
    requires rows != []
  {
    Group(rows, Fin(MinAt(rows)), Fin(MaxAt(rows)))
  }

  lemma {:induction false} AscendingParts(gs: seq<Group>, tail: seq<Entry>)
    requires Ascending(Rows(gs) + tail)
    ensures forall g :: g in gs ==> Ascending(g.rows)
  {
    if gs != [] {
      var all := Rows(gs) + tail;
      assert Rows(gs) == gs[0].rows + Rows(gs[1..]);
      assert gs[0].rows == all[..|gs[0].rows|];
      assert Rows(gs[1..]) + tail == all[|gs[0].rows|..];
      AscendingParts(gs[1..], tail);
    }
  }

  /** A file whose rows ascend and whose groups were emitted by the writer can be pruned soundly. */
  lemma WrittenSound(file: File)
    requires Ascending(Rows(file))
    requires forall g :: g in file ==> g.rows != [] && g == MakeGroup(g.rows)
    ensures SoundGroups(file)
  {
    assert Rows(file) + [] == Rows(file);
    AscendingParts(file, []);
    forall g | g in file ensures SoundGroup(g) { MinMaxBound(g.rows); }
  }

  /** A group moved from the pending rows to the written ones. */
  lemma GroupMoved(written: seq<Group>, pending: seq<Entry>, n: nat)
    requires 0 < n <= |pending|
    ensures Rows(written + [MakeGroup(pending[..n])]) + pending[n..] == Rows(written) + pending
  {
    var group := MakeGroup(pending[..n]);
    RowsAppend(written, [group]);
    assert [group][1..] == [];
    assert Rows([group]) == pending[..n];
    assert (Rows(written) + pending[..n]) + pending[n..] == Rows(written) + pending;
  }

  /** A file under construction: full groups are encoded, the rest wait. `sizeOf` is the encoder's byte count. */
  class ParquetFileBuilder {
    const rowGroupSize: nat
    const sizeOf: seq<Group> -> nat
    var pending: seq<Entry>
    var written: seq<Group>
    var rows: nat

    ghost predicate Valid()
      reads this
    {
      && |pending| < rowGroupSize
      && rows == |Contents()|
      && forall g :: g in written ==> |g.rows| == rowGroupSize && g == MakeGroup(g.rows)
    }

    /** Every row appended so far, in order. */
    ghost function Contents(): seq<Entry>
      reads this
    {
      Rows(written) + pending
    }

    constructor (rowGroupSize: nat, sizeOf: seq<Group> -> nat)
      requires rowGroupSize >= 1
      ensures Valid() && Contents() == [] && pending == [] && written == []
      ensures this.rowGroupSize == rowGroupSize && this.sizeOf == sizeOf
    {
      this.rowGroupSize, this.sizeOf := rowGroupSize, sizeOf;
      pending, written, rows := [], [], 0;
    }

    function Bytes(): nat
      reads this
    {
      sizeOf(written)
    }

    method Append(entries: seq<Entry>)
      requires Valid()
      modifies this
      ensures Valid() && Contents() == old(Contents()) + entries
      ensures rows == old(rows) + |entries|
      ensures old(pending) == [] && |entries| == rowGroupSize ==>
                pending == [] && written == old(written) + [MakeGroup(entries)]
      ensures old(pending) == [] && |entries| < rowGroupSize ==> pending == entries && written == old(written)
    {
      pending := pending + entries;
      rows := rows + |entries|;
      while |pending| >= rowGroupSize
        invariant rowGroupSize >= 1 && rows == old(rows) + |entries|
        invariant Rows(written) + pending == old(Contents()) + entries
        invariant forall g :: g in written ==> |g.rows| == rowGroupSize && g == MakeGroup(g.rows)
        invariant old(pending) == [] && |entries| == rowGroupSize ==>
                    (pending == entries && written == old(written))
                    || (pending == [] && written == old(written) + [MakeGroup(entries)])
        invariant old(pending) == [] && |entries| < rowGroupSize ==> pending == entries && written == old(written)
      {
        var group := pending[..rowGroupSize];
        GroupMoved(written, pending, rowGroupSize);
        assert |pending| == rowGroupSize ==> group == pending;
        written := written + [MakeGroup(group)];
        pending := pending[rowGroupSize..];
      }
      assert |Contents()| == |old(Contents())| + |entries|;
    }

    method Finish() returns (file: File)
      requires Valid()
      modifies this
      ensures Rows(file) == old(Contents())
      ensures forall g :: g in file ==> g.rows != [] && g == MakeGroup(g.rows)
      ensures file == old(written) + (if old(pending) == [] then [] else [MakeGroup(old(pending))])
    {
      if |pending| > 0 {
        RowsAppend(written, [MakeGroup(pending)]);
        written := written + [MakeGroup(pending)];
        pending := [];
      }
      file := written;
    }
  }

  method EncodeFile(sorted: seq<Entry>, rowGroupSize: nat, sizeOf: seq<Group> -> nat) returns (file: File)
    requires rowGroupSize >= 1
    ensures Rows(file) == sorted
    ensures forall g :: g in file ==> g.rows != [] && g == MakeGroup(g.rows)
  {
    var builder := new ParquetFileBuilder(rowGroupSize, sizeOf);
    builder.Append(sorted);
    file := builder.Finish();
  }

  // ---------------------------------------------------------------- the merge

  /** A cursor over one input: row groups not decoded yet and rows decoded but not consumed. */
  datatype Cursor = Cursor(groups: seq<Group>, rows: seq<Entry>)

  function Unread(c: Cursor): seq<Entry> { c.rows + Rows(c.groups) }

  ghost predicate StrictlyAscending(s: seq<Entry>) {
    forall i, j :: 0 <= i < j < |s| ==> Newer(s[j], s[i])
  }

  function Positions(s: set<Entry>): set<Position> { set e | e in s :: PositionOf(e) }

  /** The rows the cursors have left. */
  ghost function Left(cursors: seq<Cursor>): set<Entry> {
    set i, e | 0 <= i < |cursors| && e in Unread(cursors[i]) :: e
  }

  ghost predicate Ordered(cursors: seq<Cursor>) {
    forall i :: 0 <= i < |cursors| ==> Ascending(Unread(cursors[i]))
  }

  ghost function Work(cursors: seq<Cursor>): nat {
    if cursors == [] then 0 else |Unread(cursors[0])| + Work(cursors[1..])
  }

  lemma {:induction false} WorkUpdate(cursors: seq<Cursor>, i: nat, c: Cursor)
    requires i < |cursors|
    ensures Work(cursors[i := c]) == Work(cursors) - |Unread(cursors[i])| + |Unread(c)|
  {
    if i > 0 {
      assert cursors[i := c][1..] == cursors[1..][i - 1 := c];
      WorkUpdate(cursors[1..], i - 1, c);
    } else {
      assert cursors[i := c][1..] == cursors[1..];
    }
  }

  /** The cursor's next row, decoding the next non-empty row group when needed. */
  method Next(cursor: Cursor) returns (c: Cursor, head: Option<Entry>)
    requires Ascending(Unread(cursor))
    ensures Unread(c) == Unread(cursor)
    ensures head.Some? <==> Unread(c) != []
    ensures head.Some? ==> c.rows != [] && head.value == c.rows[0] == Unread(c)[0]
  {
    c := cursor;
    while c.rows == []
      invariant Unread(c) == Unread(cursor)
      decreases |c.groups|
    {
      if c.groups == [] { return c, None; }
      var group := c.groups[0];
      assert group.rows == Unread(c)[..|group.rows|];
      SortOldestSorted(group.rows);
      c := Cursor(c.groups[1..], SortOldest(group.rows));
    }
    head := Some(c.rows[0]);
  }

  /** The cursor whose next row is the oldest, the first such on ties. */
  method Oldest(cursors: seq<Cursor>) returns (cs: seq<Cursor>, best: int)
    requires Ordered(cursors)
    ensures |cs| == |cursors| && forall i :: 0 <= i < |cs| ==> Unread(cs[i]) == Unread(cursors[i])
    ensures -1 <= best < |cs|
    ensures best == -1 ==> forall i :: 0 <= i < |cs| ==> Unread(cs[i]) == []
    ensures best >= 0 ==> cs[best].rows != []
                          && forall i :: 0 <= i < |cs| && Unread(cs[i]) != [] ==>
                               !Newer(cs[best].rows[0], Unread(cs[i])[0])
  {
    cs, best := cursors, -1;
    for k := 0 to |cs|
      invariant |cs| == |cursors| && -1 <= best < k
      invariant forall i :: 0 <= i < |cs| ==> Unread(cs[i]) == Unread(cursors[i])
      invariant best == -1 ==> forall i :: 0 <= i < k ==> Unread(cs[i]) == []
      invariant best >= 0 ==> cs[best].rows != []
                              && forall i :: 0 <= i < k && Unread(cs[i]) != [] ==>
                                   !Newer(cs[best].rows[0], Unread(cs[i])[0])
    {
      var c, head := Next(cs[k]);
      if best >= 0 { NewerIrreflexive(cs[best].rows[0]); }
      if head.Some? { NewerIrreflexive(head.value); }
      if head.Some? && (best == -1 || Newer(cs[best].rows[0], head.value)) {
        if best >= 0 { Undercut(cs, k, cs[best].rows[0], head.value); }
        best := k;
      }
      cs := cs[k := c];
    }
  }

  lemma Undercut(cs: seq<Cursor>, k: nat, was: Entry, now: Entry)
    requires k <= |cs| && Newer(was, now)
    requires forall i :: 0 <= i < k && Unread(cs[i]) != [] ==> !Newer(was, Unread(cs[i])[0])
    ensures forall i :: 0 <= i < k && Unread(cs[i]) != [] ==> !Newer(now, Unread(cs[i])[0])
  {
    forall i | 0 <= i < k && Unread(cs[i]) != [] ensures !Newer(now, Unread(cs[i])[0]) {
      NewerOrder(was, now, Unread(cs[i])[0]);
    }
  }

  /** What the merge keeps true of the rows emitted so far and the rows left. */
  ghost predicate Merging(emitted: seq<Entry>, cursors: seq<Cursor>, input: set<Entry>) {
    && StrictlyAscending(emitted) && Ordered(cursors)
    && Elems(emitted) + Left(cursors) <= input
    && Positions(Elems(emitted)) + Positions(Left(cursors)) == Positions(input)
    && (emitted != [] ==> forall e :: e in Left(cursors) ==> !Newer(emitted[|emitted| - 1], e))
  }

  function Consume(cursors: seq<Cursor>, best: nat): seq<Cursor>
    requires best < |cursors| && cursors[best].rows != []
  {
    cursors[best := cursors[best].(rows := cursors[best].rows[1..])]
  }

  /** Consuming the oldest row left. */
  lemma ConsumeOldest(cursors: seq<Cursor>, best: nat)
    requires Ordered(cursors) && best < |cursors| && cursors[best].rows != []
    requires forall i :: 0 <= i < |cursors| && Unread(cursors[i]) != [] ==>
               !Newer(cursors[best].rows[0], Unread(cursors[i])[0])
    ensures var rest := Consume(cursors, best);
            && Ordered(rest) && Left(cursors) == Left(rest) + {cursors[best].rows[0]}
            && forall x :: x in Left(rest) ==> !Newer(cursors[best].rows[0], x)
  {
    var e, rest := cursors[best].rows[0], Consume(cursors, best);
    assert Unread(cursors[best]) == [e] + Unread(rest[best]);
    assert Unread(rest[best]) == Unread(cursors[best])[1..];
    assert forall i :: 0 <= i < |rest| && i != best ==> rest[i] == cursors[i];
    forall x | x in Left(rest) ensures x in Left(cursors) && !Newer(e, x) {
      var i :| 0 <= i < |rest| && x in Unread(rest[i]);
      assert x in Unread(cursors[i]);
      OldestIsBelow(cursors[i], e, x);
    }
    forall x | x in Left(cursors) ensures x == e || x in Left(rest) {
      var i :| 0 <= i < |cursors| && x in Unread(cursors[i]);
      assert i != best ==> rest[i] == cursors[i];
      assert x == e || x in Unread(rest[i]);
    }
    assert e in Unread(cursors[best]);
  }

  function Emit(emitted: seq<Entry>, e: Entry): seq<Entry> {
    if emitted != [] && PositionOf(emitted[|emitted| - 1]) == PositionOf(e) then emitted
    else emitted + [e]
  }

  lemma EmitFacts(emitted: seq<Entry>, e: Entry)
    requires StrictlyAscending(emitted)
    requires emitted != [] ==> !Newer(emitted[|emitted| - 1], e)
    ensures StrictlyAscending(Emit(emitted, e))
    ensures Elems(Emit(emitted, e)) <= Elems(emitted) + {e}
    ensures Positions(Elems(Emit(emitted, e))) == Positions(Elems(emitted)) + {PositionOf(e)}
    ensures Emit(emitted, e) != []
            && PositionOf(Emit(emitted, e)[|Emit(emitted, e)| - 1]) == PositionOf(e)
  {
    if emitted != [] && PositionOf(emitted[|emitted| - 1]) == PositionOf(e) {
      assert emitted[|emitted| - 1] in Elems(emitted);
    } else {
      forall i | 0 <= i < |emitted| ensures Newer(e, emitted[i]) {
        NewerOrder(e, emitted[|emitted| - 1], emitted[i]);
        NewerOrder(e, emitted[|emitted| - 1], e);
      }
      assert forall x :: x in emitted + [e] <==> x in emitted || x == e;
      assert Elems(emitted + [e]) == Elems(emitted) + {e};
    }
  }

  /** Emit the consumed row, unless its position was the last one emitted. */
  lemma MergeStep(emitted: seq<Entry>, cursors: seq<Cursor>, best: nat, input: set<Entry>)
    requires Merging(emitted, cursors, input) && best < |cursors| && cursors[best].rows != []
    requires forall i :: 0 <= i < |cursors| && Unread(cursors[i]) != [] ==>
               !Newer(cursors[best].rows[0], Unread(cursors[i])[0])
    ensures Merging(Emit(emitted, cursors[best].rows[0]), Consume(cursors, best), input)
  {
    var e, rest := cursors[best].rows[0], Consume(cursors, best);
    ConsumeOldest(cursors, best);
    assert e in Left(cursors);
    EmitFacts(emitted, e);
    assert Positions(Left(cursors)) == Positions(Left(rest)) + {PositionOf(e)};
  }

  lemma OldestIsBelow(c: Cursor, e: Entry, x: Entry)
    requires Ascending(Unread(c)) && x in Unread(c) && !Newer(e, Unread(c)[0])
    ensures !Newer(e, x)
  {
    var i :| 0 <= i < |Unread(c)| && Unread(c)[i] == x;
    NewerOrder(x, Unread(c)[0], e);
  }

  ghost function Flat(files: seq<File>): seq<Entry> { Rows(Groups(files)) }

  lemma {:induction false} GroupsAppend(a: seq<File>, b: File)
    ensures Groups(a + [b]) == Groups(a) + b
  {
    if a == [] {
      assert a + [b] == [b] && Groups([b]) == b + Groups([]);
    } else {
      assert (a + [b])[1..] == a[1..] + [b];
      GroupsAppend(a[1..], b);
    }
  }

  lemma FlatAppend(files: seq<File>, file: File)
    ensures Flat(files + [file]) == Flat(files) + Rows(file)
  {
    GroupsAppend(files, file);
    RowsAppend(Groups(files), file);
  }

  ghost predicate WrittenFile(file: File) {
    Rows(file) != [] && forall g :: g in file ==> g.rows != [] && g == MakeGroup(g.rows)
  }

  /** `outputs` are complete files that reached the target size. */
  ghost predicate CutAt(outputs: seq<File>, targetBytes: nat, sizeOf: seq<Group> -> nat) {
    forall i :: 0 <= i < |outputs| ==> WrittenFile(outputs[i]) && sizeOf(outputs[i]) >= targetBytes
  }

  /** At no earlier row group had the file reached the target size. */
  ghost predicate CutInTime(file: File, targetBytes: nat, sizeOf: seq<Group> -> nat) {
    forall n :: 0 < n < |file| ==> sizeOf(file[..n]) < targetBytes
  }

  ghost predicate AllInTime(outputs: seq<File>, targetBytes: nat, sizeOf: seq<Group> -> nat) {
    forall file :: file in outputs ==> CutInTime(file, targetBytes, sizeOf)
  }

  lemma OneMoreFile(outputs: seq<File>, file: File, targetBytes: nat, sizeOf: seq<Group> -> nat)
    requires AllInTime(outputs, targetBytes, sizeOf) && CutInTime(file, targetBytes, sizeOf)
    ensures AllInTime(outputs + [file], targetBytes, sizeOf)
    ensures CutAt(outputs, targetBytes, sizeOf) && WrittenFile(file) && sizeOf(file) >= targetBytes ==>
              CutAt(outputs + [file], targetBytes, sizeOf)
  {
  }

  lemma OneMoreGroup(written: seq<Group>, g: Group, targetBytes: nat, sizeOf: seq<Group> -> nat)
    requires CutInTime(written, targetBytes, sizeOf) && (written == [] || sizeOf(written) < targetBytes)
    ensures CutInTime(written + [g], targetBytes, sizeOf)
  {
    var file := written + [g];
    forall n | 0 < n < |file| ensures sizeOf(file[..n]) < targetBytes {
      if n < |written| { assert file[..n] == written[..n]; } else { assert file[..n] == written; }
    }
  }

  /**
    The k-way merge of sorted files, one row per position, cut at `targetBytes`:
    the outputs, concatenated, ascend strictly and hold exactly the positions of the inputs.
   */
  method MergeFiles(files: seq<File>, rowGroupSize: nat, targetBytes: nat, sizeOf: seq<Group> -> nat)
    returns (outputs: seq<File>)
    requires rowGroupSize >= 1
    requires forall file :: file in files ==> Ascending(Rows(file))
    ensures StrictlyAscending(Flat(outputs))
    ensures Positions(Elems(Flat(outputs))) == Positions(Elems(Flat(files)))
    ensures Elems(Flat(outputs)) <= Elems(Flat(files))
    ensures forall file :: file in outputs ==> WrittenFile(file)
    ensures outputs == [] || CutAt(outputs[..|outputs| - 1], targetBytes, sizeOf)
    ensures AllInTime(outputs, targetBytes, sizeOf)
  {
    var cursors := seq(|files|, i requires 0 <= i < |files| => Cursor(files[i], []));
    StartMerge(files, cursors);
    var builder, chunk;
    ghost var emitted;
    outputs, builder, chunk, emitted := MergeRows(cursors, rowGroupSize, targetBytes, sizeOf, Elems(Flat(files)));
    outputs := FinishMerge(outputs, builder, chunk, targetBytes);
  }

  /** The merge loop: the oldest row over all cursors, dropped when it repeats the last position. */
  method MergeRows(start: seq<Cursor>, rowGroupSize: nat, targetBytes: nat, sizeOf: seq<Group> -> nat,
                   ghost input: set<Entry>)
    returns (outputs: seq<File>, builder: ParquetFileBuilder, chunk: seq<Entry>, ghost emitted: seq<Entry>)
    requires rowGroupSize >= 1 && Merging([], start, input)
    ensures fresh(builder) && builder.sizeOf == sizeOf && Building(outputs, builder, chunk, targetBytes)
    ensures emitted == Output(outputs, builder, chunk)
    ensures Done(emitted, input)
  {
    var cursors := start;
    outputs, chunk, emitted := [], [], [];
    builder := new ParquetFileBuilder(rowGroupSize, sizeOf);
    var last: Option<Position> := None;
    var popped;
    cursors, popped := PopOldest(cursors, emitted, input);
    while popped.Some?
      invariant fresh(builder) && Building(outputs, builder, chunk, targetBytes)
      invariant builder.sizeOf == sizeOf
      invariant emitted == Output(outputs, builder, chunk)
      invariant last == LastPosition(emitted)
      invariant popped.Some? ==> Merging(Emit(emitted, popped.value), cursors, input)
      invariant popped.None? ==> Done(emitted, input)
      decreases popped.Some?, Work(cursors)
    {
      emitted := Emit(emitted, popped.value);
      if last != Some(PositionOf(popped.value)) {
        last := Some(PositionOf(popped.value));
        outputs, builder, chunk := Push(outputs, builder, chunk, popped.value, targetBytes);
      }
      cursors, popped := PopOldest(cursors, emitted, input);
    }
  }

  /** Strictly ascending, and one row for each position of the input. */
  ghost predicate Done(emitted: seq<Entry>, input: set<Entry>) {
    && StrictlyAscending(emitted) && Elems(emitted) <= input
    && Positions(Elems(emitted)) == Positions(input)
  }

  ghost function LastPosition(s: seq<Entry>): Option<Position> {
    if s == [] then None else Some(PositionOf(s[|s| - 1]))
  }

  /** Everything emitted so far: complete files, the file being built and the pending chunk. */
  ghost function Output(outputs: seq<File>, builder: ParquetFileBuilder, chunk: seq<Entry>): seq<Entry>
    reads builder
  {
    Flat(outputs) + builder.Contents() + chunk
  }

  ghost predicate Building(outputs: seq<File>, builder: ParquetFileBuilder, chunk: seq<Entry>,
                           targetBytes: nat)
    reads builder
  {
    && builder.Valid() && builder.pending == [] && |chunk| < builder.rowGroupSize
    && CutAt(outputs, targetBytes, builder.sizeOf) && AllInTime(outputs, targetBytes, builder.sizeOf)
    && CutInTime(builder.written, targetBytes, builder.sizeOf)
    && (builder.written == [] || builder.sizeOf(builder.written) < targetBytes)
  }

  /** The oldest row left, consumed; none when every cursor is exhausted. */
  method PopOldest(cursors: seq<Cursor>, ghost emitted: seq<Entry>, ghost input: set<Entry>)
    returns (cs: seq<Cursor>, popped: Option<Entry>)
    requires Merging(emitted, cursors, input)
    ensures popped.None? ==> Done(emitted, input)
    ensures popped.Some? ==> Merging(Emit(emitted, popped.value), cs, input)
    ensures popped.Some? ==> Work(cs) < Work(cursors)
  {
    var best;
    cs, best := Oldest(cursors);
    SameUnread(cursors, cs);
    if best == -1 {
      assert Left(cs) == {};
      return cs, None;
    }
    var entry := cs[best].rows[0];
    MergeStep(emitted, cs, best, input);
    WorkUpdate(cs, best, cs[best].(rows := cs[best].rows[1..]));
    assert Unread(cs[best]) == [entry] + Unread(Consume(cs, best)[best]);
    cs := Consume(cs, best);
    popped := Some(entry);
  }

  /** The last chunk and the last file. */
  method FinishMerge(files: seq<File>, builder: ParquetFileBuilder, chunk: seq<Entry>, targetBytes: nat)
    returns (outputs: seq<File>)
    requires Building(files, builder, chunk, targetBytes)
    modifies builder
    ensures Flat(outputs) == old(Output(files, builder, chunk))
    ensures forall file :: file in outputs ==> WrittenFile(file)
    ensures outputs == [] || CutAt(outputs[..|outputs| - 1], targetBytes, builder.sizeOf)
    ensures AllInTime(outputs, targetBytes, builder.sizeOf)
  {
    outputs := files;
    LastRows(Flat(files), builder.Contents(), chunk);
    if |chunk| > 0 {
      OneMoreGroup(builder.written, MakeGroup(chunk), targetBytes, builder.sizeOf);
      builder.Append(chunk);
    }
    if builder.rows > 0 {
      ghost var written, pending := builder.written, builder.pending;
      var file := builder.Finish();
      assert file == if pending == [] then written else written + [MakeGroup(pending)];
      FlatAppend(outputs, file);
      OneMoreFile(outputs, file, targetBytes, builder.sizeOf);
      outputs := outputs + [file];
      assert outputs[..|outputs| - 1] == files;
    }
  }

  /**
    One more row. A full chunk becomes a row group; past the target size the file is complete and a
    new one starts.
   */
  method Push(files: seq<File>, builder: ParquetFileBuilder, chunk: seq<Entry>, entry: Entry,
              targetBytes: nat)
    returns (outputs: seq<File>, next: ParquetFileBuilder, rest: seq<Entry>)
    requires Building(files, builder, chunk, targetBytes)
    modifies builder
    ensures next == builder || fresh(next)
    ensures next.rowGroupSize == builder.rowGroupSize && next.sizeOf == builder.sizeOf
    ensures Building(outputs, next, rest, targetBytes)
    ensures Output(outputs, next, rest) == old(Output(files, builder, chunk)) + [entry]
  {
    outputs, next, rest := files, builder, chunk + [entry];
    OneMoreRow(Flat(files), builder.Contents(), chunk, entry);
    if |rest| >= builder.rowGroupSize {
      OneMoreGroup(builder.written, MakeGroup(rest), targetBytes, builder.sizeOf);
      builder.Append(rest);
      rest := [];
      outputs, next := CutFile(outputs, builder, targetBytes);
    }
  }

  lemma LastRows(done: seq<Entry>, contents: seq<Entry>, chunk: seq<Entry>)
    ensures done + (contents + chunk) == done + contents + chunk
    ensures chunk == [] ==> done + contents == done + contents + chunk
    ensures contents + chunk == [] ==> done == done + contents + chunk
  {
  }

  lemma OneMoreRow(done: seq<Entry>, contents: seq<Entry>, chunk: seq<Entry>, entry: Entry)
    ensures done + (contents + (chunk + [entry])) + [] == done + contents + chunk + [entry]
    ensures done + contents + (chunk + [entry]) == done + contents + chunk + [entry]
  {
  }

  /** The file is complete once it has reached the target size. */
  method CutFile(files: seq<File>, builder: ParquetFileBuilder, targetBytes: nat)
    returns (outputs: seq<File>, next: ParquetFileBuilder)
    requires builder.Valid() && builder.pending == [] && builder.written != []
    requires CutAt(files, targetBytes, builder.sizeOf) && AllInTime(files, targetBytes, builder.sizeOf)
    requires CutInTime(builder.written, targetBytes, builder.sizeOf)
    modifies builder
    ensures next == builder || fresh(next)
    ensures next.rowGroupSize == builder.rowGroupSize && next.sizeOf == builder.sizeOf
    ensures Building(outputs, next, [], targetBytes)
    ensures Flat(outputs) + next.Contents() == old(Flat(files) + builder.Contents())
  {
    outputs, next := files, builder;
    if builder.Bytes() >= targetBytes {
      ghost var written := builder.written;
      var file := builder.Finish();
      assert file == written && written[0] in written && Rows(file) == written[0].rows + Rows(written[1..]);
      FlatAppend(outputs, file);
      OneMoreFile(outputs, file, targetBytes, builder.sizeOf);
      outputs := outputs + [file];
      next := new ParquetFileBuilder(builder.rowGroupSize, builder.sizeOf);
    }
  }

  lemma StartMerge(files: seq<File>, cursors: seq<Cursor>)
    requires |cursors| == |files| && forall i :: 0 <= i < |files| ==> cursors[i] == Cursor(files[i], [])
    requires forall file :: file in files ==> Ascending(Rows(file))
    ensures Merging([], cursors, Elems(Flat(files)))
  {
    forall i | 0 <= i < |files| ensures Unread(cursors[i]) == Rows(files[i]) {
      assert [] + Rows(files[i]) == Rows(files[i]);
    }
    forall e ensures e in Left(cursors) <==> e in Elems(Flat(files)) {
      RowsOfFiles(files, e);
      if e in Left(cursors) {
        var i :| 0 <= i < |cursors| && e in Unread(cursors[i]);
        assert files[i] in files;
      }
      if file: File :| file in files && e in Rows(file) {
        var i :| 0 <= i < |files| && files[i] == file;
        assert e in Unread(cursors[i]);
      }
    }
    assert Left(cursors) == Elems(Flat(files));
  }

  lemma {:induction false} SameUnread(a: seq<Cursor>, b: seq<Cursor>)
    requires |a| == |b| && forall i :: 0 <= i < |a| ==> Unread(a[i]) == Unread(b[i])
    ensures Work(a) == Work(b) && Left(a) == Left(b)
    ensures Ordered(a) ==> Ordered(b)
  {
    if a != [] {
      forall i | 0 <= i < |a[1..]| ensures Unread(a[1..][i]) == Unread(b[1..][i]) {
        assert a[1..][i] == a[i + 1] && b[1..][i] == b[i + 1];
      }
      SameUnread(a[1..], b[1..]);
    }
  }
}
