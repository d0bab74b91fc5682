/** Row-at-a-time execution of a prefix of a pipeline: filters, derives, selects and any
    number of takes are run on each row in turn, with counters for the takes and a stop as
    soon as one of them is full. Filters and derives may fail on a row. */
module Streaming {
  import opened Model
  import opened Schema

  /** A row-local stage. Lets, and sorts an index already satisfies, are `Idle`; filters and
      filter matches `Keep`; derives and selects `Change`. None is an evaluation error. */
  datatype RowStage =
    | Idle
    | Keep(test: Fields -> Option<bool>)
    | Change(make: Fields -> Option<Fields>)
    | Take(offset: nat, limit: nat)

  type Rows = seq<Fields>

  // ---- Whole lists ------------------------------------------------------------------------------

  function Passing(test: Fields -> Option<bool>, rows: Rows): Option<Rows> {
    if rows == [] then Some([]) else
    var front, x := Passing(test, rows[..|rows|-1]), test(rows[|rows|-1]);
    if front.None? || x.None? then None else Some(if x.value then front.value + [rows[|rows|-1]] else front.value)
  }

  function Changed(make: Fields -> Option<Fields>, rows: Rows): (r: Option<Rows>)
    ensures r.Some? ==> |r.value| == |rows|
  {
    if rows == [] then Some([]) else
    var front, x := Changed(make, rows[..|rows|-1]), make(rows[|rows|-1]);
    if front.None? || x.None? then None else Some(front.value + [x.value])
  }

  function Taken(rows: Rows, offset: nat, limit: nat): Rows {
    var rest := if offset <= |rows| then rows[offset..] else [];
    if |rest| <= limit then rest else rest[..limit]
  }

  /** One stage over a whole list of rows. */
  function RunStage(s: RowStage, rows: Rows): Option<Rows> {
    match s
    case Idle => Some(rows)
    case Keep(test) => Passing(test, rows)
    case Change(make) => Changed(make, rows)
    case Take(offset, limit) => Some(Taken(rows, offset, limit))
  }

  /** Stage after stage, each over the whole list; the first error ends it. */
  function RunAll(stages: seq<RowStage>, rows: Rows): Option<Rows> {
    if stages == [] then Some(rows) else
    var before := RunAll(stages[..|stages|-1], rows);
    if before.None? then None else RunStage(stages[|stages|-1], before.value)
  }

  lemma RunNext(stages: seq<RowStage>, rows: Rows, p: nat)
    requires p < |stages|
    ensures var before := RunAll(stages[..p], rows);
            RunAll(stages[..p+1], rows) == if before.None? then None else RunStage(stages[p], before.value)
  {
    hide RunStage;
    assert stages[..p+1][..p] == stages[..p];
  }

  /** What happens after stage `p` depends only on what stage `p` puts out. */
  lemma {:induction false} SameAfter(stages: seq<RowStage>, a: Rows, b: Rows, p: nat, k: nat)
    requires p <= k <= |stages| && RunAll(stages[..p], a) == RunAll(stages[..p], b)
    ensures RunAll(stages[..k], a) == RunAll(stages[..k], b)
  {
    hide RunStage;
    if p < k {
      SameAfter(stages, a, b, p, k - 1);
      RunNext(stages, a, k - 1);
      RunNext(stages, b, k - 1);
    }
  }

  /** An error of the first `p` stages is an error of all. */
  lemma {:induction false} FailsThrough(stages: seq<RowStage>, rows: Rows, p: nat, k: nat)
    requires p <= k <= |stages| && RunAll(stages[..p], rows).None?
    ensures RunAll(stages[..k], rows).None?
  {
    hide RunStage;
    if p < k {
      FailsThrough(stages, rows, p, k - 1);
      RunNext(stages, rows, k - 1);
    }
  }

  lemma AllSucceed(stages: seq<RowStage>, rows: Rows)
    requires RunAll(stages, rows).Some?
    ensures forall p :: 0 <= p <= |stages| ==> RunAll(stages[..p], rows).Some?
  {
    hide RunAll;
    assert stages[..|stages|] == stages;
    forall p | 0 <= p <= |stages| ensures RunAll(stages[..p], rows).Some? {
      if RunAll(stages[..p], rows).None? { FailsThrough(stages, rows, p, |stages|); }
    }
  }

  // ---- One more row -----------------------------------------------------------------------------

  /** What one more row adds to a stage's output. */
  lemma StagePush(s: RowStage, rows: Rows, row: Fields)
    ensures RunStage(s, rows + [row]) ==
            var before := RunStage(s, rows);
            match s
            case Idle => Some(rows + [row])
            case Keep(test) =>
              if before.None? || test(row).None? then None
              else Some(if test(row).value then before.value + [row] else before.value)
            case Change(make) =>
              if before.None? || make(row).None? then None else Some(before.value + [make(row).value])
            case Take(offset, limit) =>
              Some(if offset <= |rows| < offset + limit then before.value + [row] else before.value)
  {
    assert (rows + [row])[..|rows|] == rows;
    if s.Take? { TakenPush(rows, row, s.offset, s.limit); }
  }

  lemma TakenPush(rows: Rows, row: Fields, offset: nat, limit: nat)
    ensures Taken(rows + [row], offset, limit) ==
            var before := Taken(rows, offset, limit);
            if offset <= |rows| < offset + limit then before + [row] else before
  {
    if offset <= |rows| {
      assert (rows + [row])[offset..] == rows[offset..] + [row];
    }
  }

  /** Outputs grow by at most a row as a row arrives, and success so far is needed. */
  lemma {:induction false} GrowsByOne(stages: seq<RowStage>, rows: Rows, row: Fields, p: nat)
    requires p <= |stages| && RunAll(stages[..p], rows + [row]).Some?
    ensures RunAll(stages[..p], rows).Some?
    ensures var a, b := RunAll(stages[..p], rows).value, RunAll(stages[..p], rows + [row]).value;
            b == a || (|b| == |a| + 1 && b[..|a|] == a)
  {
    hide RunStage;
    if p > 0 {
      RunNext(stages, rows, p - 1);
      RunNext(stages, rows + [row], p - 1);
      GrowsByOne(stages, rows, row, p - 1);
      var a, b := RunAll(stages[..p-1], rows).value, RunAll(stages[..p-1], rows + [row]).value;
      if b != a {
        assert b == a + [b[|a|]];
        StagePush(stages[p-1], a, b[|a|]);
        IdleStage(stages[p-1], a);
      }
    }
  }

  lemma IdleStage(s: RowStage, a: Rows)
    ensures s.Idle? || s.Take? ==> RunStage(s, a).Some?
    ensures s.Idle? ==> RunStage(s, a) == Some(a)
  {}

  lemma {:induction false} Grows(stages: seq<RowStage>, rows: Rows, more: Rows, p: nat)
    requires p <= |stages| && RunAll(stages[..p], rows + more).Some?
    ensures RunAll(stages[..p], rows).Some? && RunAll(stages[..p], rows).value <= RunAll(stages[..p], rows + more).value
  {
    hide RunStage, RunAll;
    if more == [] {
      assert rows + more == rows;
    } else {
      var n := |more| - 1;
      assert rows + more == (rows + more[..n]) + [more[n]];
      GrowsByOne(stages, rows + more[..n], more[n], p);
      Grows(stages, rows, more[..n], p);
    }
  }

  /** A full take lets nothing more through, however many rows follow, unless one fails. */
  lemma {:induction false} FullStays(stages: seq<RowStage>, rows: Rows, more: Rows, p: nat)
    requires Full(stages, rows, p) && RunAll(stages, rows + more).Some?
    ensures RunAll(stages, rows + more) == RunAll(stages, rows)
  {
    hide RunStage, RunAll;
    var n := |stages|;
    assert stages[..n] == stages;
    AllSucceed(stages, rows + more);
    Grows(stages, rows, more, p);
    RunNext(stages, rows, p);
    RunNext(stages, rows + more, p);
    TakenPrefix(RunAll(stages[..p], rows).value, RunAll(stages[..p], rows + more).value, stages[p]);
    SameAfter(stages, rows + more, rows, p + 1, n);
  }

  lemma TakenPrefix(a: Rows, b: Rows, s: RowStage)
    requires s.Take? && a <= b && |a| >= s.offset + s.limit
    ensures RunStage(s, a) == RunStage(s, b)
  {
    assert a[s.offset..] <= b[s.offset..];
    assert Taken(a, s.offset, s.limit) == Taken(b, s.offset, s.limit);
  }

  /** Stage `p` is a take that has let its whole limit through. */
  ghost predicate Full(stages: seq<RowStage>, rows: Rows, p: nat) {
    && p < |stages| && stages[p].Take? && RunAll(stages[..p], rows).Some?
    && |RunAll(stages[..p], rows).value| >= stages[p].offset + stages[p].limit
  }

  // ---- Where a stream stops ---------------------------------------------------------------------

  /** The new row reaches take `p`, past its offset, and the take is then full. */
  ghost predicate Fills(stages: seq<RowStage>, rows: Rows, row: Fields, p: nat) {
    && Full(stages, rows + [row], p) && RunAll(stages[..p], rows).Some?
    && var b := RunAll(stages[..p], rows + [row]).value;
       |b| > |RunAll(stages[..p], rows).value| && |b| > stages[p].offset
  }

  ghost predicate Exhausts(stages: seq<RowStage>, rows: Rows, row: Fields) {
    exists p :: 0 <= p < |stages| && Fills(stages, rows, row, p)
  }

  /** How many rows a stream consumes: it stops behind a row that fails or that fills a take. */
  ghost function Consumed(stages: seq<RowStage>, rows: Rows, i: nat): (n: nat)
    requires i <= |rows|
    ensures i <= n <= |rows|
    decreases |rows| - i
  {
    if i == |rows| then i
    else if RunAll(stages, rows[..i+1]).None? || Exhausts(stages, rows[..i], rows[i]) then i + 1
    else Consumed(stages, rows, i + 1)
  }

  // ---- Counters ---------------------------------------------------------------------------------

  datatype TakeState = TakeState(seen: nat, emitted: nat)

  /** The counters of a take after `n` rows have reached it. */
  function CountersAfter(s: RowStage, n: nat): TakeState
    requires s.Take?
  {
    TakeState(if n <= s.offset + s.limit then n else s.offset + s.limit,
              if n <= s.offset then 0 else if n - s.offset <= s.limit then n - s.offset else s.limit)
  }

  /** What became of a row: an error, or the row that came out, if any, and whether the stream
      can stop. */
  datatype Sent = Failed | Sent(out: Option<Fields>, exhausted: bool)

  class RowStream {
    const stages: seq<RowStage>
    var states: map<nat, TakeState>

    /** The rows so far went through, and every take's counters, absent where no row has
        reached it, are those of the rows that have been through the earlier stages. */
    ghost predicate Counts(rows: Rows)
      reads this
    {
      RunAll(stages, rows).Some? && forall p :: 0 <= p < |stages| && stages[p].Take? ==> CountsAt(rows, p)
    }

    ghost predicate CountsAt(rows: Rows, p: nat)
      requires p < |stages| && stages[p].Take?
      reads this
    {
      var reached := RunAll(stages[..p], rows);
      reached.Some? && StateAt(p) == CountersAfter(stages[p], |reached.value|)
    }

    function StateAt(p: nat): TakeState
      reads this
    {
      if p in states then states[p] else TakeState(0, 0)
    }

    constructor (stages: seq<RowStage>)
      ensures this.stages == stages && Counts([])
    {
      this.stages := stages;
      states := map[];
      new;
      forall p | 0 <= p <= |stages| ensures RunAll(stages[..p], []) == Some([]) { NothingIn(stages, p); }
      assert stages[..|stages|] == stages;
    }

    /** Send one row through the stages. It fails exactly when running each stage over the
        rows so far and this one fails; otherwise it adds to that run's output what it puts
        out, and asks to stop exactly when it fills a take. */
    method Push(row: Fields, ghost rows: Rows) returns (r: Sent)
      requires Counts(rows)
      modifies this
      ensures r.Failed? <==> RunAll(stages, rows + [row]).None?
      ensures r.Sent? ==> Counts(rows + [row]) && (r.exhausted <==> Exhausts(stages, rows, row))
      ensures r.Sent? ==>
                var before := RunAll(stages, rows);
                RunAll(stages, rows + [row]) == if r.out.None? then before else Some(before.value + [r.out.value])
    {
      hide RunStage, RunAll, CountersAfter, Fills;
      var current, exhausted := row, false;
      ghost var all := rows + [row];
      NoStages(stages, all);
      NoStages(stages, rows);
      AllSucceed(stages, rows);
      for p := 0 to |stages|
        invariant RunAll(stages[..p], all) == Some(RunAll(stages[..p], rows).value + [current])
        invariant forall k :: 0 <= k < p && stages[k].Take? ==> CountsAt(all, k)
        invariant forall k :: p <= k < |stages| && stages[k].Take? ==> CountsAt(rows, k)
        invariant exhausted <==> exists k :: 0 <= k < p && Fills(stages, rows, row, k)
      {
        ghost var before := RunAll(stages[..p], rows).value;
        RunNext(stages, rows, p);
        RunNext(stages, all, p);
        StagePush(stages[p], before, current);
        IdleStage(stages[p], before);
        FillsOnlyTakes(stages, rows, row, p);
        match stages[p] {
          case Idle =>
          case Keep(test) =>
            var x := test(current);
            if x.None? {
              Stops(stages, all, p);
              return Failed;
            }
            if !x.value {
              Dropped(stages, rows, row, p);
              DroppedCounts(rows, row, p);
              return Sent(None, exhausted);
            }
          case Change(make) =>
            var x := make(current);
            if x.None? {
              Stops(stages, all, p);
              return Failed;
            }
            current := x.value;
          case Take(offset, limit) =>
            var state := StateAt(p);
            Counted(stages[p], |before|);
            FillsIff(stages, rows, row, p, before, current);
            if state.seen < offset {
              states := states[p := TakeState(state.seen + 1, state.emitted)];
              Dropped(stages, rows, row, p);
              DroppedCounts(rows, row, p);
              return Sent(None, exhausted);
            }
            if state.emitted >= limit {
              states := states[p := state];
              Dropped(stages, rows, row, p);
              DroppedCounts(rows, row, p);
              return Sent(None, true);
            }
            states := states[p := TakeState(state.seen + 1, state.emitted + 1)];
            if state.emitted + 1 == limit { exhausted := true; }
        }
      }
      assert stages[..|stages|] == stages;
      return Sent(Some(current), exhausted);
    }

    /** Behind the stage that dropped the row the counters still hold. */
    lemma DroppedCounts(rows: Rows, row: Fields, p: nat)
      requires p < |stages|
      requires forall k :: p < k <= |stages| ==> RunAll(stages[..k], rows + [row]) == RunAll(stages[..k], rows)
      ensures forall k :: p < k < |stages| && stages[k].Take? && CountsAt(rows, k) ==> CountsAt(rows + [row], k)
      ensures forall k :: p < k ==> !Fills(stages, rows, row, k)
    {
      hide RunAll, CountersAfter;
    }
  }

  lemma NoStages(stages: seq<RowStage>, rows: Rows)
    ensures RunAll(stages[..0], rows) == Some(rows)
  {}

  lemma {:induction false} NothingIn(stages: seq<RowStage>, p: nat)
    requires p <= |stages|
    ensures RunAll(stages[..p], []) == Some([])
  {
    if p > 0 {
      NothingIn(stages, p - 1);
      RunNext(stages, [], p - 1);
    }
  }

  lemma Stops(stages: seq<RowStage>, rows: Rows, p: nat)
    requires p < |stages| && RunAll(stages[..p+1], rows).None?
    ensures RunAll(stages, rows).None?
  {
    hide RunAll;
    FailsThrough(stages, rows, p + 1, |stages|);
    assert stages[..|stages|] == stages;
  }

  /** A row that stage `p` drops changes nothing after it. */
  lemma Dropped(stages: seq<RowStage>, rows: Rows, row: Fields, p: nat)
    requires p < |stages| && RunAll(stages[..p+1], rows + [row]) == RunAll(stages[..p+1], rows)
    ensures forall k :: p < k <= |stages| ==> RunAll(stages[..k], rows + [row]) == RunAll(stages[..k], rows)
    ensures RunAll(stages, rows + [row]) == RunAll(stages, rows)
  {
    hide RunAll;
    forall k | p < k <= |stages| ensures RunAll(stages[..k], rows + [row]) == RunAll(stages[..k], rows) {
      SameAfter(stages, rows + [row], rows, p + 1, k);
    }
    assert stages[..|stages|] == stages;
  }

  lemma FillsOnlyTakes(stages: seq<RowStage>, rows: Rows, row: Fields, p: nat)
    ensures Fills(stages, rows, row, p) ==> p < |stages| && stages[p].Take?
  {
    hide RunAll;
  }

  lemma FillsIff(stages: seq<RowStage>, rows: Rows, row: Fields, p: nat, before: Rows, current: Fields)
    requires p < |stages| && stages[p].Take? && RunAll(stages[..p], rows) == Some(before)
    requires RunAll(stages[..p], rows + [row]) == Some(before + [current])
    ensures var n, s := |before|, stages[p];
            Fills(stages, rows, row, p) <==> n >= s.offset && n + 1 >= s.offset + s.limit
  {
    hide RunAll;
  }

  /** What the counters of a take say. */
  lemma Counted(s: RowStage, n: nat)
    requires s.Take?
    ensures var c, d := CountersAfter(s, n), CountersAfter(s, n + 1);
            && (c.seen < s.offset <==> n < s.offset)
            && (c.seen >= s.offset ==> (c.emitted >= s.limit <==> n >= s.offset + s.limit))
            && (c.seen < s.offset ==> d == TakeState(c.seen + 1, c.emitted))
            && (c.seen >= s.offset && c.emitted >= s.limit ==> d == c)
            && (c.seen >= s.offset && c.emitted < s.limit ==>
                && d == TakeState(c.seen + 1, c.emitted + 1)
                && (c.emitted + 1 == s.limit <==> n + 1 == s.offset + s.limit))
  {}

  // ---- Streaming a list of rows -----------------------------------------------------------------

  /** A whole run that goes through is what the stream puts out, wherever it stops. */
  lemma {:induction false} ConsumedSuffices(stages: seq<RowStage>, rows: Rows, i: nat)
    requires i <= |rows| && RunAll(stages, rows).Some?
    ensures RunAll(stages, rows[..Consumed(stages, rows, i)]) == RunAll(stages, rows)
    decreases |rows| - i
  {
    hide RunAll, Fills, Full;
    if i == |rows| {
      assert rows[..i] == rows;
    } else {
      var seen, more := rows[..i+1], rows[i+1..];
      assert seen + more == rows && rows[..i] + [rows[i]] == seen;
      assert stages[..|stages|] == stages;
      Grows(stages, seen, more, |stages|);
      if Exhausts(stages, rows[..i], rows[i]) {
        var p :| Fills(stages, rows[..i], rows[i], p);
        FilledIsFull(stages, rows[..i], rows[i], p);
        FullStays(stages, seen, more, p);
      } else {
        ConsumedSuffices(stages, rows, i + 1);
      }
    }
  }

  lemma FilledIsFull(stages: seq<RowStage>, rows: Rows, row: Fields, p: nat)
    requires Fills(stages, rows, row, p)
    ensures Full(stages, rows + [row], p)
  {}

  /** Streaming is running each stage over the rows consumed; where running each stage over all
      the rows goes through, it is that. An error in a row behind the last one consumed is not
      met. */
  method StreamRows(stages: seq<RowStage>, rows: Rows) returns (output: Option<Rows>)
    ensures output == RunAll(stages, rows[..Consumed(stages, rows, 0)])
    ensures RunAll(stages, rows).Some? ==> output == RunAll(stages, rows)
  {
    hide RunAll, RunStage, Exhausts;
    if RunAll(stages, rows).Some? { ConsumedSuffices(stages, rows, 0); }
    var stream := new RowStream(stages);
    var sent := [];
    assert RunAll(stages, []) == Some([]) by {
      NothingIn(stages, |stages|);
      assert stages[..|stages|] == stages;
    }
    for i := 0 to |rows|
      invariant stream.stages == stages && stream.Counts(rows[..i]) && Some(sent) == RunAll(stages, rows[..i])
      invariant Consumed(stages, rows, 0) == Consumed(stages, rows, i)
    {
      assert rows[..i+1] == rows[..i] + [rows[i]];
      var r := stream.Push(rows[i], rows[..i]);
      if r.Failed? { return None; }
      if r.out.Some? { sent := sent + [r.out.value]; }
      if r.exhausted { return Some(sent); }
    }
    return Some(sent);
  }

  lemma OneTaken(rows: Rows)
    requires |rows| == 1
    ensures Taken(rows, 0, 1) == rows
  {
    assert rows[0..] == rows;
  }

  /** An error the stream does not meet: the first row fills the take, the second would fail. */
  lemma StopHidesError(make: Fields -> Option<Fields>, a: Fields, b: Fields)
    requires make(a).Some? && make(b).None?
    ensures var stages, rows := [Change(make), Take(0, 1)], [a, b];
            && RunAll(stages, rows).None?
            && RunAll(stages, rows[..Consumed(stages, rows, 0)]) == Some([make(a).value])
  {
    hide Taken;
    var stages, rows, out := [Change(make), Take(0, 1)], [a, b], [make(a).value];
    assert stages[..1] == [Change(make)] && stages[..2] == stages && stages[..1][..0] == [];
    assert rows[..1] == [a] == [] + [a] && rows[..0] == [];
    assert [a][..0] == [] && [] + out == out;
    assert Changed(make, []) == Some([]) && Changed(make, [a]) == Some(out);
    assert rows[|rows|-1] == b && Changed(make, rows).None?;
    assert RunAll(stages[..1], [a]) == Some(out) && RunAll(stages[..1], []) == Some([]);
    assert RunAll(stages[..1], rows).None?;
    OneTaken(out);
    assert Fills(stages, rows[..0], rows[0], 1);
  }

  // ---- How many rows a pipeline needs -----------------------------------------------------------

  /** How many rows of its input a pipeline can use, where the first stage that is not
      row for row is a take. */
  function Needed(stages: seq<RowStage>, p: nat): Option<nat>
    requires p <= |stages|
    decreases |stages| - p
  {
    if p == |stages| || stages[p].Keep? then None
    else if stages[p].Take? then Some(stages[p].offset + stages[p].limit)
    else Needed(stages, p + 1)
  }

  lemma {:induction false} RowForRow(stages: seq<RowStage>, rows: Rows, p: nat)
    requires p <= |stages| && forall k :: 0 <= k < p ==> stages[k].Idle? || stages[k].Change?
    requires RunAll(stages[..p], rows).Some?
    ensures |RunAll(stages[..p], rows).value| == |rows|
  {
    if p > 0 {
      RunNext(stages, rows, p - 1);
      RowForRow(stages, rows, p - 1);
    }
  }

  /** Reading no more rows than a pipeline needs leaves its result unchanged, where it has one. */
  lemma {:induction false} NeededSuffices(stages: seq<RowStage>, rows: Rows, p: nat)
    requires p <= |stages| && Needed(stages, p).Some? && forall k :: 0 <= k < p ==> stages[k].Idle? || stages[k].Change?
    requires RunAll(stages, rows).Some?
    ensures var n := Needed(stages, p).value;
            RunAll(stages, if n <= |rows| then rows[..n] else rows) == RunAll(stages, rows)
    decreases |stages| - p
  {
    hide RunAll;
    if stages[p].Take? {
      var n := stages[p].offset + stages[p].limit;
      if n <= |rows| {
        assert rows[..n] + rows[n..] == rows;
        AllSucceed(stages, rows);
        Grows(stages, rows[..n], rows[n..], p);
        RowForRow(stages, rows[..n], p);
        FullStays(stages, rows[..n], rows[n..], p);
      }
    } else {
      NeededSuffices(stages, rows, p + 1);
    }
  }
}
