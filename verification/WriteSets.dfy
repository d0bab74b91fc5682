/** The logical write set of one table: row changes, index entry changes and the ID
    watermark, coalesced as they are recorded. It always holds the net effect since it was
    last taken. */
module WriteSets {
  import opened Model
  import opened OrderedKey
  import opened Schema
  import opened Postings
  import opened TableStore
  import opened Tables

  datatype EntryKey = EntryKey(shape: string, key: Key, id: RowId)

  datatype EntryChange = EntryChange(before: bool, after: bool)

  // ---- Net effects ------------------------------------------------------------------------------

  ghost function RowAt(rm: RowMap, id: RowId): Option<Row> {
    if id in rm then Some(Row(id, rm[id])) else None
  }

  /** Every recorded row has its first before image and its last after image, and every
      row that is not recorded is as it was. */
  ghost predicate NetRows(initial: RowMap, current: RowMap, rows: map<RowId, RowChange>) {
    && (forall id <- rows :: rows[id] == RowChange(RowAt(initial, id), RowAt(current, id)))
    && (forall id <- rows :: rows[id].before.Some? || rows[id].after.Some?)
    && (forall id :: id !in rows ==> RowAt(initial, id) == RowAt(current, id))
  }

  predicate Filed(f: Filing, k: Key, id: RowId) {
    id in f && f[id] == k
  }

  /** For one index: every recorded entry changed, the way it is recorded, and every entry
      that is not recorded is as it was. */
  ghost predicate NetEntries(shape: string, initial: Filing, current: Filing, entries: map<EntryKey, EntryChange>) {
    forall k, id :: NetEntry(initial, current, entries, EntryKey(shape, k, id))
  }

  ghost predicate NetEntry(initial: Filing, current: Filing, entries: map<EntryKey, EntryChange>, e: EntryKey) {
    var before, after := Filed(initial, e.key, e.id), Filed(current, e.key, e.id);
    if e in entries then entries[e] == EntryChange(before, after) && before != after else before == after
  }

  ghost predicate NetWatermark(initial: RowId, current: RowId, watermark: Option<(RowId, RowId)>) {
    if watermark.Some? then watermark.value == (initial, current) && initial < current else initial == current
  }

  /** The entries are the net effect on every index of the table, and on no other. */
  ghost predicate NetIndexes(
    t: TableSchema, ds: seq<IndexDefinition>, initial: RowMap, current: RowMap, entries: map<EntryKey, EntryChange>) {
    && (forall d <- ds :: NetEntries(d.shape, FilingOf(t, d, initial), FilingOf(t, d, current), entries))
    && (forall e <- entries :: OwnShape(ds, e.shape))
  }

  ghost predicate OwnShape(ds: seq<IndexDefinition>, shape: string) {
    exists d <- ds :: d.shape == shape
  }

  // ---- Runs of change sets ----------------------------------------------------------------------

  /** One mutation: its row changes and the allocation cursor after it. */
  datatype Mutation = Mutation(changes: seq<RowChange>, next: RowId)

  ghost function RowsAfter(rm: RowMap, ms: seq<Mutation>): RowMap {
    if ms == [] then rm else ApplyAll(RowsAfter(rm, ms[..|ms|-1]), ms[|ms|-1].changes)
  }

  ghost function CursorAfter(next: RowId, ms: seq<Mutation>): RowId {
    if ms == [] then next else ms[|ms|-1].next
  }

  /** Every mutation fits the table the earlier ones leave, and never lowers the cursor. */
  ghost predicate FitsRun(rm: RowMap, next: RowId, ms: seq<Mutation>) {
    forall i :: 0 <= i < |ms| ==>
      Fits(RowsAfter(rm, ms[..i]), ms[i].changes) && CursorAfter(next, ms[..i]) <= ms[i].next
  }

  lemma NextMutation(rm: RowMap, next: RowId, ms: seq<Mutation>, i: nat)
    requires i < |ms|
    ensures RowsAfter(rm, ms[..i+1]) == ApplyAll(RowsAfter(rm, ms[..i]), ms[i].changes)
    ensures CursorAfter(next, ms[..i+1]) == ms[i].next
  {
    hide ApplyAll;
    assert ms[..i+1][..i] == ms[..i];
  }

  // ---- Recording --------------------------------------------------------------------------------

  datatype Summary = Summary(inserts: nat, updates: nat, deletes: nat, entryInserts: nat, entryDeletes: nat)

  class WriteSet {
    var rows: map<RowId, RowChange>
    var entries: map<EntryKey, EntryChange>
    var watermark: Option<(RowId, RowId)>

    /** The write set is the net effect of going from one table state to another. */
    ghost predicate Holds(
      t: TableSchema, ds: seq<IndexDefinition>, initial: RowMap, current: RowMap, first: RowId, next: RowId)
      reads this
    {
      && NetRows(initial, current, rows) && NetIndexes(t, ds, initial, current, entries)
      && NetWatermark(first, next, watermark)
    }

    constructor ()
      ensures forall t, ds, rm, next :: Holds(t, ds, rm, rm, next, next)
    {
      rows, entries, watermark := map[], map[], None;
    }

    method RecordRows(changes: seq<RowChange>, ghost initial: RowMap, ghost current: RowMap)
      requires NetRows(initial, current, rows) && Fits(current, changes)
      modifies this`rows
      ensures NetRows(initial, ApplyAll(current, changes), rows)
    {
      hide ApplyAll, NetRows, Fits;
      assert changes[..0] == [];
      ApplyNone(current);
      for i := 0 to |changes|
        invariant NetRows(initial, ApplyAll(current, changes[..i]), rows)
      {
        var change := changes[i];
        ghost var now := ApplyAll(current, changes[..i]);
        assert ApplyAll(current, changes[..i+1]) == Apply(now, change) by { NextChange(current, changes, i); }
        FitsNow(current, changes, i);
        CoalesceRow(initial, now, rows, change);
        var id := change.Id();
        ghost var was := rows;
        if id !in rows {
          rows := rows[id := change];
        } else {
          rows := rows[id := rows[id].(after := change.after)];
          if rows[id].before.None? && rows[id].after.None? { rows := rows - {id}; }
        }
        assert rows == CoalescedRows(was, change);
      }
      assert changes[..|changes|] == changes;
    }

    method RecordWatermark(before: RowId, after: RowId, ghost initial: RowId)
      requires NetWatermark(initial, before, watermark) && before <= after
      modifies this`watermark
      ensures NetWatermark(initial, after, watermark)
    {
      if before == after { return; }
      watermark := if watermark.Some? then Some((watermark.value.0, after)) else Some((before, after));
    }

    /** One entry leaves or arrives; the entries stay the net effect. */
    method RecordEntry(
      shape: string, k: Key, id: RowId, leaving: bool, ghost initial: Filing, ghost f: Filing, ghost g: Filing)
      requires NetEntries(shape, initial, f, entries) && Moves(f, g, k, id, leaving)
      modifies this`entries
      ensures NetEntries(shape, initial, g, entries) && Elsewhere(old(entries), entries, shape)
    {
      CoalesceEntry(shape, initial, f, g, entries, k, id, leaving);
      hide NetEntries, Moves;
      var e, before, after := EntryKey(shape, k, id), leaving, !leaving;
      if e !in entries {
        entries := entries[e := EntryChange(before, after)];
      } else {
        entries := entries[e := entries[e].(after := after)];
        if entries[e].before == entries[e].after { entries := entries - {e}; }
      }
      assert entries == Coalesced(old(entries), e, before, after);
    }

    /** One index through one set of row changes. */
    method RecordIndex(
      t: TableSchema, d: IndexDefinition, changes: seq<RowChange>, ghost initial: Filing, ghost current: RowMap)
      requires NetEntries(d.shape, initial, FilingOf(t, d, current), entries) && Fits(current, changes)
      modifies this`entries
      ensures NetEntries(d.shape, initial, FilingOf(t, d, ApplyAll(current, changes)), entries)
      ensures Elsewhere(old(entries), entries, d.shape)
    {
      hide ApplyAll, NetEntries, FilingOf, Fits, BeforeKey, AfterKey, Moves;
      assert changes[..0] == [];
      ApplyNone(current);
      for i := 0 to |changes|
        invariant NetEntries(d.shape, initial, FilingOf(t, d, ApplyAll(current, changes[..i])), entries)
        invariant Elsewhere(old(entries), entries, d.shape)
      {
        var change := changes[i];
        ghost var now := ApplyAll(current, changes[..i]);
        ghost var f := FilingOf(t, d, now);
        assert ApplyAll(current, changes[..i+1]) == Apply(now, change) by { NextChange(current, changes, i); }
        FitsNow(current, changes, i);
        ChangedFiling(t, d, now, change);
        var id, before, after := change.Id(), BeforeKey(t, d, change), AfterKey(t, d, change);
        ghost var left := f - {id};
        ghost var right := if after.Some? then left[id := after.value] else left;
        if before.Some? && after.Some? && before.value == after.value {
          assert right == f;
        } else {
          if before.Some? {
            Leaves(f, id);
            RecordEntry(d.shape, before.value, id, true, initial, f, left);
          } else {
            assert left == f;
          }
          if after.Some? {
            Arrives(left, after.value, id);
            RecordEntry(d.shape, after.value, id, false, initial, left, right);
          }
        }
      }
      assert changes[..|changes|] == changes;
    }

    /** Every index of the table through one set of row changes. */
    method RecordIndexes(
      t: TableSchema, ds: seq<IndexDefinition>, changes: seq<RowChange>, ghost initial: RowMap, ghost current: RowMap)
      requires DistinctShapes(ds) && NetIndexes(t, ds, initial, current, entries) && Fits(current, changes)
      modifies this`entries
      ensures NetIndexes(t, ds, initial, ApplyAll(current, changes), entries)
    {
      hide ApplyAll, NetEntries, FilingOf, Fits;
      ghost var final := ApplyAll(current, changes);
      for i := 0 to |ds|
        invariant forall j :: 0 <= j < i ==>
          NetEntries(ds[j].shape, FilingOf(t, ds[j], initial), FilingOf(t, ds[j], final), entries)
        invariant forall j :: i <= j < |ds| ==>
          NetEntries(ds[j].shape, FilingOf(t, ds[j], initial), FilingOf(t, ds[j], current), entries)
        invariant forall e <- entries :: OwnShape(ds, e.shape)
      {
        ghost var was := entries;
        RecordIndex(t, ds[i], changes, FilingOf(t, ds[i], initial), current);
        forall j | 0 <= j < |ds| && j != i
          ensures j < i ==>
            NetEntries(ds[j].shape, FilingOf(t, ds[j], initial), FilingOf(t, ds[j], final), entries)
          ensures j > i ==>
            NetEntries(ds[j].shape, FilingOf(t, ds[j], initial), FilingOf(t, ds[j], current), entries)
        {
          var now := if j < i then final else current;
          OtherShape(ds[j].shape, ds[i].shape, FilingOf(t, ds[j], initial), FilingOf(t, ds[j], now), was, entries);
        }
      }
    }

    /** One mutation: rows, index entries, watermark. */
    method Record(
      t: TableSchema, ds: seq<IndexDefinition>, m: Mutation, before: RowId,
      ghost initial: RowMap, ghost current: RowMap, ghost first: RowId)
      requires DistinctShapes(ds) && Holds(t, ds, initial, current, first, before)
      requires Fits(current, m.changes) && before <= m.next
      modifies this
      ensures Holds(t, ds, initial, ApplyAll(current, m.changes), first, m.next)
    {
      hide NetRows, NetIndexes, Fits, ApplyAll, NetWatermark;
      RecordRows(m.changes, initial, current);
      RecordIndexes(t, ds, m.changes, initial, current);
      RecordWatermark(before, m.next, first);
    }

    /** The counts of a write set. Every change falls into one of the counted kinds: an
        empty row change or an unchanged index entry is never held. */
    method Summarise(
      ghost t: TableSchema, ghost ds: seq<IndexDefinition>, ghost initial: RowMap, ghost current: RowMap,
      ghost first: RowId, ghost next: RowId) returns (s: Summary)
      requires Holds(t, ds, initial, current, first, next)
      ensures s.inserts == |Kind(rows, rows.Keys, false, true)| && s.updates == |Kind(rows, rows.Keys, true, true)|
      ensures s.deletes == |Kind(rows, rows.Keys, true, false)|
      ensures s.entryInserts == |Arrivals(entries, entries.Keys, true)|
      ensures s.entryDeletes == |Arrivals(entries, entries.Keys, false)|
      ensures s.inserts + s.updates + s.deletes == |rows| && s.entryInserts + s.entryDeletes == |entries|
    {
      hide NetRows, NetIndexes;
      assert forall id <- rows :: rows[id].before.Some? || rows[id].after.Some? by {
        NoEmptyChange(initial, current, rows);
      }
      assert forall e <- entries :: entries[e].before != entries[e].after by {
        NoEmptyEntry(t, ds, initial, current, entries);
      }
      var inserts, updates, deletes := CountRows(rows);
      var arrivals, departures := CountEntries(entries);
      return Summary(inserts, updates, deletes, arrivals, departures);
    }
  }

  /** Recorded changes of every other index stay as they are. */
  ghost predicate Elsewhere(was: map<EntryKey, EntryChange>, now: map<EntryKey, EntryChange>, shape: string) {
    forall e: EntryKey :: e.shape != shape ==> (e in now <==> e in was) && (e in now ==> now[e] == was[e])
  }

  lemma OtherShape(
    shape: string, touched: string, initial: Filing, current: Filing, was: map<EntryKey, EntryChange>,
    now: map<EntryKey, EntryChange>)
    requires shape != touched && Elsewhere(was, now, touched) && NetEntries(shape, initial, current, was)
    ensures NetEntries(shape, initial, current, now)
  {
    hide Filed;
    forall k: Key, id: RowId ensures NetEntry(initial, current, now, EntryKey(shape, k, id)) {
      assert NetEntry(initial, current, was, EntryKey(shape, k, id));
    }
  }

  /** No held entry is unchanged. */
  lemma NoEmptyEntry(
    t: TableSchema, ds: seq<IndexDefinition>, initial: RowMap, current: RowMap, entries: map<EntryKey, EntryChange>)
    requires NetIndexes(t, ds, initial, current, entries)
    ensures forall e <- entries :: entries[e].before != entries[e].after
  {
    hide Filed, FilingOf;
    forall e <- entries ensures entries[e].before != entries[e].after {
      assert OwnShape(ds, e.shape);
      var d :| d in ds && d.shape == e.shape;
      assert NetEntry(FilingOf(t, d, initial), FilingOf(t, d, current), entries, EntryKey(d.shape, e.key, e.id));
    }
  }

  lemma NoEmptyChange(initial: RowMap, current: RowMap, rows: map<RowId, RowChange>)
    requires NetRows(initial, current, rows)
    ensures forall id <- rows :: rows[id].before.Some? || rows[id].after.Some?
  {}

  /** Rows that existed at the start and at the end, or not, as asked. */
  ghost function Kind(rows: map<RowId, RowChange>, ids: set<RowId>, before: bool, after: bool): set<RowId> {
    set id | id in ids && id in rows && rows[id].before.Some? == before && rows[id].after.Some? == after
  }

  ghost function Arrivals(entries: map<EntryKey, EntryChange>, es: set<EntryKey>, after: bool): set<EntryKey> {
    set e | e in es && e in entries && entries[e].after == after
  }

  method CountRows(rows: map<RowId, RowChange>) returns (inserts: nat, updates: nat, deletes: nat)
    requires forall id <- rows :: rows[id].before.Some? || rows[id].after.Some?
    ensures inserts == |Kind(rows, rows.Keys, false, true)| && updates == |Kind(rows, rows.Keys, true, true)|
    ensures deletes == |Kind(rows, rows.Keys, true, false)| && inserts + updates + deletes == |rows|
  {
    inserts, updates, deletes := 0, 0, 0;
    var remaining, done := rows.Keys, {};
    while remaining != {}
      invariant done + remaining == rows.Keys && done !! remaining
      invariant inserts == |Kind(rows, done, false, true)| && updates == |Kind(rows, done, true, true)|
      invariant deletes == |Kind(rows, done, true, false)| && inserts + updates + deletes == |done|
      decreases |remaining|
    {
      var id :| id in remaining;
      KindStep(rows, done, id);
      match (rows[id].before, rows[id].after) {
        case (None, Some(_)) => inserts := inserts + 1;
        case (Some(_), Some(_)) => updates := updates + 1;
        case (Some(_), None) => deletes := deletes + 1;
        case (None, None) => assert false;
      }
      remaining, done := remaining - {id}, done + {id};
    }
    assert done == rows.Keys;
  }

  lemma KindStep(rows: map<RowId, RowChange>, done: set<RowId>, id: RowId)
    requires id in rows && id !in done
    ensures forall before, after ::
      |Kind(rows, done + {id}, before, after)| ==
      |Kind(rows, done, before, after)| + if rows[id].before.Some? == before
        && rows[id].after.Some? == after then 1 else 0
  {
    forall before, after
      ensures |Kind(rows, done + {id}, before, after)| ==
              |Kind(rows, done, before, after)| + if rows[id].before.Some? == before
                && rows[id].after.Some? == after then 1 else 0
    {
      var own := if rows[id].before.Some? == before && rows[id].after.Some? == after then {id} else {};
      assert Kind(rows, done + {id}, before, after) == Kind(rows, done, before, after) + own;
    }
  }

  method CountEntries(entries: map<EntryKey, EntryChange>) returns (arrivals: nat, departures: nat)
    requires forall e <- entries :: entries[e].before != entries[e].after
    ensures arrivals == |Arrivals(entries, entries.Keys, true)|
            && departures == |Arrivals(entries, entries.Keys, false)|
    ensures arrivals + departures == |entries|
  {
    arrivals, departures := 0, 0;
    var remaining, done := entries.Keys, {};
    while remaining != {}
      invariant done + remaining == entries.Keys && done !! remaining
      invariant arrivals == |Arrivals(entries, done, true)| && departures == |Arrivals(entries, done, false)|
      invariant arrivals + departures == |done|
      decreases |remaining|
    {
      var e :| e in remaining;
      ArrivalStep(entries, done, e, true);
      ArrivalStep(entries, done, e, false);
      match (entries[e].before, entries[e].after) {
        case (false, true) => arrivals := arrivals + 1;
        case (true, false) => departures := departures + 1;
        case _ => assert false;
      }
      remaining, done := remaining - {e}, done + {e};
    }
    assert done == entries.Keys;
  }

  lemma ArrivalStep(entries: map<EntryKey, EntryChange>, done: set<EntryKey>, e: EntryKey, after: bool)
    requires e in entries && e !in done
    ensures |Arrivals(entries, done + {e}, after)| == |Arrivals(entries, done, after)| + if entries[e].after == after
            then 1 else 0
  {
    assert Arrivals(entries, done + {e}, after) == Arrivals(entries, done, after) + if entries[e].after == after
           then {e} else {};
  }

  // ---- One step ---------------------------------------------------------------------------------

  lemma NextChange(rm: RowMap, cs: seq<RowChange>, i: nat)
    requires i < |cs|
    ensures ApplyAll(rm, cs[..i+1]) == Apply(ApplyAll(rm, cs[..i]), cs[i])
  {
    assert cs[..i+1][..i] == cs[..i];
  }

  /** The next change still fits: its row has not been touched by the earlier ones. */
  lemma FitsNow(rm: RowMap, cs: seq<RowChange>, i: nat)
    requires Fits(rm, cs) && i < |cs|
    ensures FitsOne(ApplyAll(rm, cs[..i]), cs[i])
  {
    hide ApplyAll;
    ApplyAllOther(rm, cs[..i], cs[i].Id());
  }

  ghost predicate FitsOne(rm: RowMap, c: RowChange) {
    && (c.before.Some? || c.after.Some?) && c.before == RowAt(rm, c.Id())
    && (c.after.Some? ==> c.after.value.id == c.Id())
  }

  function CoalescedRows(rows: map<RowId, RowChange>, c: RowChange): map<RowId, RowChange> {
    if c.Id() !in rows then rows[c.Id() := c] else
    var merged := rows[c.Id()].(after := c.after);
    if merged.before.None? && merged.after.None? then rows - {c.Id()} else rows[c.Id() := merged]
  }

  lemma CoalesceRow(initial: RowMap, now: RowMap, rows: map<RowId, RowChange>, c: RowChange)
    requires NetRows(initial, now, rows) && FitsOne(now, c)
    ensures NetRows(initial, Apply(now, c), CoalescedRows(rows, c))
  {
    var next, id := Apply(now, c), c.Id();
    assert RowAt(next, id) == c.after;
    assert forall x :: x != id ==> RowAt(next, x) == RowAt(now, x);
  }

  function Coalesced(
    entries: map<EntryKey, EntryChange>, e: EntryKey, before: bool, after: bool): map<EntryKey, EntryChange> {
    if e !in entries then entries[e := EntryChange(before, after)]
    else if entries[e].before == after then entries - {e}
    else entries[e := entries[e].(after := after)]
  }

  /** The filings differ in one entry, which leaves or arrives. */
  ghost predicate Moves(f: Filing, g: Filing, k: Key, id: RowId, leaving: bool) {
    && Filed(f, k, id) == leaving && Filed(g, k, id) == !leaving
    && forall k': Key, id': RowId :: (k', id') != (k, id) ==> Filed(g, k', id') == Filed(f, k', id')
  }

  lemma Leaves(f: Filing, id: RowId)
    requires id in f
    ensures Moves(f, f - {id}, f[id], id, true)
  {}

  lemma Arrives(f: Filing, k: Key, id: RowId)
    requires id !in f
    ensures Moves(f, f[id := k], k, id, false)
  {}

  /** Recording that one entry leaves (or arrives) keeps the net effect. */
  lemma CoalesceEntry(
    shape: string, initial: Filing, f: Filing, g: Filing, entries: map<EntryKey, EntryChange>, k: Key, id: RowId,
    leaving: bool)
    requires NetEntries(shape, initial, f, entries)
    requires Moves(f, g, k, id, leaving)
    ensures NetEntries(shape, initial, g, Coalesced(entries, EntryKey(shape, k, id), leaving, !leaving))
  {
    hide Filed;
    var next := Coalesced(entries, EntryKey(shape, k, id), leaving, !leaving);
    forall k': Key, id': RowId ensures NetEntry(initial, g, next, EntryKey(shape, k', id')) {
      assert NetEntry(initial, f, entries, EntryKey(shape, k', id'));
      if (k', id') != (k, id) { assert Filed(g, k', id') == Filed(f, k', id'); }
    }
  }

  /** What one row change does to an index's filing. */
  lemma ChangedFiling(t: TableSchema, d: IndexDefinition, rm: RowMap, c: RowChange)
    requires FitsOne(rm, c)
    ensures var f, before, after := FilingOf(t, d, rm), BeforeKey(t, d, c), AfterKey(t, d, c);
            && (before.Some? <==> c.Id() in f) && (before.Some? ==> f[c.Id()] == before.value)
            && FilingOf(t, d, Apply(rm, c)) == if after.Some? then (f - {c.Id()})[c.Id() := after.value]
            else f - {c.Id()}
  {
    hide FiledKey;
  }

  // ---- Committing a write set -------------------------------------------------------------------

  /** Write every recorded after image over its expected before image. A stored row that is
      not the expected one would be refused; that never happens. */
  method CommitRows(stored: RowMap, rows: map<RowId, RowChange>, ghost current: RowMap) returns (r: Option<RowMap>)
    requires NetRows(stored, current, rows)
    ensures r == Some(current)
  {
    var rm := stored;
    var remaining := rows.Keys;
    while remaining != {}
      invariant remaining <= rows.Keys
      invariant forall id ::
                  RowAt(rm, id) == if id in rows && id !in remaining then RowAt(current, id) else RowAt(stored, id)
      decreases |remaining|
    {
      var id :| id in remaining;
      var was, change := rm, rows[id];
      assert RowAt(rm, id) == change.before && RowAt(current, id) == change.after;
      if (change.before.Some? && (id !in rm || rm[id] != change.before.value.fields))
         || (change.before.None? && id in rm) {
        return None;
      }
      rm := if change.after.Some? then rm[id := change.after.value.fields] else rm - {id};
      remaining := remaining - {id};
      assert RowAt(rm, id) == RowAt(current, id);
      assert forall x :: x != id ==> RowAt(rm, x) == RowAt(was, x);
    }
    assert rm == current by {
      forall id ensures (id in rm <==> id in current) && (id in rm ==> rm[id] == current[id]) {
        assert RowAt(rm, id) == RowAt(current, id);
      }
    }
    return Some(rm);
  }

  /** Entries of one index that go, or come, in a write set. */
  function Pending(entries: map<EntryKey, EntryChange>, shape: string, before: bool): set<EntryKey> {
    set e <- entries.Keys | e.shape == shape && entries[e] == EntryChange(before, !before)
  }

  /** The filing once the entries that go are gone. */
  ghost predicate Halfway(f: Filing, initial: Filing, current: Filing) {
    forall k, id :: Filed(f, k, id) <==> Filed(initial, k, id) && Filed(current, k, id)
  }

  /** Delete the entries that go. */
  method CommitDeletes(
    p: Posting, shape: string, entries: map<EntryKey, EntryChange>, ghost initial: Filing, ghost current: Filing)
    returns (r: Option<Posting>, ghost f: Filing)
    requires Lists(p, initial) && NetEntries(shape, initial, current, entries)
    ensures r.Some? && Lists(r.value, f) && Halfway(f, initial, current)
  {
    hide Lists, NetEntries, Unlisted;
    var q := p;
    f := initial;
    var remaining := Pending(entries, shape, true);
    assert forall e <- remaining :: e.shape == shape && e in entries && !entries[e].after;
    GoingExact(shape, entries, initial, current);
    while remaining != {}
      invariant remaining <= Pending(entries, shape, true) && Lists(q, f)
      invariant forall k, id :: Filed(f, k, id) <==>
        Filed(initial, k, id) && (Filed(current, k, id) || EntryKey(shape, k, id) in remaining)
      decreases |remaining|
    {
      var e :| e in remaining;
      assert e == EntryKey(shape, e.key, e.id) && Filed(f, e.key, e.id);
      UnlistedFiling(q, f, e.id);
      if e.key !in q || e.id !in q[e.key] { return None, f; }
      AscendingAt(q, f, e.key);
      q, f := Unlisted(q, e.key, e.id), f - {e.id};
      remaining := remaining - {e};
    }
    return Some(q), f;
  }

  lemma AscendingAt(q: Posting, f: Filing, k: Key)
    requires Lists(q, f) && k in q
    ensures Ascending(q[k])
  {}

  /** The entries recorded as going are those filed at the start and no longer at the end;
      those recorded as coming are the reverse. */
  lemma GoingExact(shape: string, entries: map<EntryKey, EntryChange>, initial: Filing, current: Filing)
    requires NetEntries(shape, initial, current, entries)
    ensures forall k, id :: EntryKey(shape, k, id) in Pending(entries, shape, true) <==>
                            Filed(initial, k, id) && !Filed(current, k, id)
    ensures forall k, id :: EntryKey(shape, k, id) in Pending(entries, shape, false) <==>
                            !Filed(initial, k, id) && Filed(current, k, id)
  {
    hide Filed;
    forall k: Key, id: RowId
      ensures EntryKey(shape, k, id) in Pending(entries, shape, true) <==>
              Filed(initial, k, id) && !Filed(current, k, id)
      ensures EntryKey(shape, k, id) in Pending(entries, shape, false) <==>
              !Filed(initial, k, id) && Filed(current, k, id)
    {
      assert NetEntry(initial, current, entries, EntryKey(shape, k, id));
    }
  }

  /** Delete the entries that go, then insert those that come: the posting becomes that of
      the final table. A missing or an already present entry would be refused; there is
      none. */
  method CommitIndex(
    p: Posting, shape: string, entries: map<EntryKey, EntryChange>, ghost initial: Filing, ghost current: Filing)
    returns (r: Option<Posting>)
    requires Lists(p, initial) && NetEntries(shape, initial, current, entries)
    ensures r.Some? && Lists(r.value, current)
  {
    hide Lists, NetEntries, Listed;
    GoingExact(shape, entries, initial, current);
    ghost var f: Filing;
    r, f := CommitDeletes(p, shape, entries, initial, current);
    if r.None? { return; }
    var q := r.value;
    var remaining := Pending(entries, shape, false);
    while remaining != {}
      invariant remaining <= Pending(entries, shape, false) && Lists(q, f)
      invariant forall k, id :: Filed(f, k, id) <==>
        Filed(current, k, id) && (Filed(initial, k, id) || EntryKey(shape, k, id) !in remaining)
      decreases |remaining|
    {
      var e :| e in remaining;
      assert e == EntryKey(shape, e.key, e.id) && Filed(current, e.key, e.id) && !Filed(f, e.key, e.id);
      assert forall k :: Filed(f, k, e.id) ==> k == e.key;
      assert e.id !in f by { FiledSomewhere(f, e.id); }
      NotListed(q, f, e.key, e.id);
      if e.key in q && e.id in q[e.key] { return None; }
      ListedFiling(q, f, e.key, e.id);
      q, f := Listed(q, e.key, e.id), f[e.id := e.key];
      remaining := remaining - {e};
    }
    SameFiling(f, current);
    return Some(q);
  }

  lemma FiledSomewhere(f: Filing, id: RowId)
    ensures id in f ==> Filed(f, f[id], id)
  {}

  lemma NotListed(q: Posting, f: Filing, k: Key, id: RowId)
    requires Lists(q, f) && id !in f
    ensures !Has(q, k, id) && (k in q ==> Ascending(q[k]))
  {}

  lemma SameFiling(f: Filing, g: Filing)
    requires forall k, id :: Filed(f, k, id) <==> Filed(g, k, id)
    ensures f == g
  {
    forall id ensures (id in f <==> id in g) && (id in f ==> f[id] == g[id]) {
      if id in f { assert Filed(f, f[id], id); }
      if id in g { assert Filed(g, g[id], id); }
    }
  }

  /** Recording any run of mutations and committing the coalesced write set to the state
      before the run gives the rows, the postings and the cursor after it. */
  method RecordAndCommit(
    t: TableSchema, ds: seq<IndexDefinition>, stored: RowMap, indexes: map<string, Posting>, first: RowId,
    ms: seq<Mutation>) returns (rm: RowMap, postings: map<string, Posting>, next: RowId)
    requires DistinctShapes(ds) && Indexed(t, ds, indexes, stored) && FitsRun(stored, first, ms)
    ensures rm == RowsAfter(stored, ms) && next == CursorAfter(first, ms)
    ensures forall d <- ds :: d.shape in postings
    ensures forall d <- ds, p :: Lists(p, FilingOf(t, d, RowsAfter(stored, ms))) ==> postings[d.shape] == p
  {
    hide NetRows, NetIndexes, Fits, ApplyAll, RowsAfter, FilingOf, Lists, CursorAfter;
    var w := new WriteSet();
    var before := first;
    assert RowsAfter(stored, ms[..0]) == stored && CursorAfter(first, ms[..0]) == first by {
      NoMutations(stored, first, ms);
    }
    for i := 0 to |ms|
      invariant w.Holds(t, ds, stored, RowsAfter(stored, ms[..i]), first, before)
                && before == CursorAfter(first, ms[..i])
    {
      NextMutation(stored, first, ms, i);
      w.Record(t, ds, ms[i], before, stored, RowsAfter(stored, ms[..i]), first);
      before := ms[i].next;
    }
    assert ms[..|ms|] == ms;
    ghost var final := RowsAfter(stored, ms);
    var r := CommitRows(stored, w.rows, final);
    rm, next := r.value, if w.watermark.Some? then w.watermark.value.1 else first;
    postings := CommitIndexes(t, ds, indexes, w.entries, stored, final);
    forall d <- ds, p | Lists(p, FilingOf(t, d, final)) ensures postings[d.shape] == p {
      ListsUnique(postings[d.shape], p, FilingOf(t, d, final));
    }
  }

  lemma NoMutations(rm: RowMap, next: RowId, ms: seq<Mutation>)
    ensures RowsAfter(rm, ms[..0]) == rm && CursorAfter(next, ms[..0]) == next
  {}

  method CommitIndexes(
    t: TableSchema, ds: seq<IndexDefinition>, indexes: map<string, Posting>, entries: map<EntryKey, EntryChange>,
    ghost initial: RowMap, ghost current: RowMap) returns (postings: map<string, Posting>)
    requires DistinctShapes(ds) && Indexed(t, ds, indexes, initial) && NetIndexes(t, ds, initial, current, entries)
    ensures Indexed(t, ds, postings, current)
  {
    hide NetEntries, FilingOf, Lists;
    postings := indexes;
    for i := 0 to |ds|
      invariant forall j :: 0 <= j < |ds| ==> ds[j].shape in postings
      invariant forall j :: 0 <= j < i ==> Lists(postings[ds[j].shape], FilingOf(t, ds[j], current))
      invariant forall j :: i <= j < |ds| ==> Lists(postings[ds[j].shape], FilingOf(t, ds[j], initial))
    {
      var d := ds[i];
      var p := CommitIndex(postings[d.shape], d.shape, entries, FilingOf(t, d, initial), FilingOf(t, d, current));
      postings := postings[d.shape := p.value];
    }
  }
}
