/**
 Merging the captured report rows into the local data table. The table has
 one row per day, oldest first; the captured rows are newest first. The row
 whose date is the newest report's date anchors the merge, and the k-th
 captured row is written into the k-th row above it. Only the four columns
 the reports carry are written.
 */
module Splice {
  import opened Options
  import opened Calendar
  import opened Validation

  /**
   One row of the data table, column by column: `Data`, `Dzień`, `Wykryci
   zakażeni`, `Testy`, `Hospitalizowani`, `Zmarli`, `Kwarantanna`, `Nadzór`,
   `Testy, wartości przybliżone`, `Kwarantanna po powrocie do kraju`,
   `Wydarzenia`, `Wyzdrowiali`.
   */
  datatype Row = Row(
    date: Date,
    day: Cell,
    detected: Cell,
    tests: Cell,
    hospitalized: Cell,
    deaths: Cell,
    quarantine: Cell,
    supervision: Cell,
    testsApprox: Cell,
    returnQuarantine: Cell,
    events: Cell,
    recovered: Cell)

  /** The table column a report label is written to. */
  function Column(r: Row, l: Label): Cell
  {
    match l
    case Hospitalized => r.hospitalized
    case Quarantined => r.quarantine
    case Supervised => r.supervision
    case Recovered => r.recovered
  }

  /** The two rows agree on the date and on every column a report does not carry. */
  predicate SameOtherColumns(a: Row, b: Row)
  {
    && a.date == b.date
    && a.day == b.day
    && a.detected == b.detected
    && a.tests == b.tests
    && a.deaths == b.deaths
    && a.testsApprox == b.testsApprox
    && a.returnQuarantine == b.returnQuarantine
    && a.events == b.events
  }

  /**
   Writing a captured row into a table row: each label's column takes the
   captured cell, and every other column is kept.
   */
  function Overwrite(r: Row, c: Capture): (o: Row)
    ensures forall l :: Column(o, l) == CellOf(c, l)
    ensures SameOtherColumns(r, o)
  {
    r.(hospitalized := c.hospitalized, quarantine := c.quarantined, supervision := c.supervised, recovered := c.recovered)
  }

  /** The row index the source's search settles on: the last row dated `d`, or 0 when there is none. */
  function MatchIndex(table: seq<Row>, d: Date): nat
  {
    if |table| == 0 then 0
    else if table[|table| - 1].date == d then |table| - 1
    else MatchIndex(table[..|table| - 1], d)
  }

  /** `MatchIndex` is the largest index of a row dated `d` when there is one, and 0 otherwise. */
  lemma {:induction false} MatchIndexSpec(table: seq<Row>, d: Date)
    ensures (exists i :: 0 <= i < |table| && table[i].date == d) ==>
              MatchIndex(table, d) < |table| && table[MatchIndex(table, d)].date == d &&
              forall j :: MatchIndex(table, d) < j < |table| ==> table[j].date != d
    ensures (forall i :: 0 <= i < |table| ==> table[i].date != d) ==> MatchIndex(table, d) == 0
    decreases |table|
  {
    if |table| > 0 && table[|table| - 1].date != d {
      var init := table[..|table| - 1];
      MatchIndexSpec(init, d);
      if exists i :: 0 <= i < |table| && table[i].date == d {
        var i :| 0 <= i < |table| && table[i].date == d;
        assert init[i].date == d;
      }
      assert forall i :: 0 <= i < |init| ==> init[i] == table[i];
    }
  }

  /**
   The search for the anchor row. Dates are compared as `%m/%d/%Y` strings,
   the newest report's date against each row's, and the last row that
   matches wins; with no match the anchor stays at row 0.
   */
  method FindNewestRow(table: seq<Row>, newest: DateTime) returns (idx: nat)
    ensures idx == MatchIndex(table, newest.date)
    ensures (exists i :: 0 <= i < |table| && table[i].date == newest.date) ==>
              idx < |table| && table[idx].date == newest.date &&
              forall j :: idx < j < |table| ==> table[j].date != newest.date
    ensures (forall i :: 0 <= i < |table| ==> table[i].date != newest.date) ==> idx == 0
  {
    var target := FormatUS(newest.date);
    idx := 0;
    var i := 0;
    while i < |table|
      invariant 0 <= i <= |table|
      invariant idx == MatchIndex(table[..i], newest.date)
    {
      FormatUSInjective(table[i].date, newest.date);
      if FormatUS(table[i].date) == target {
        idx := i;
      }
      assert table[..i + 1][..i] == table[..i];
      i := i + 1;
    }
    assert table[..i] == table;
    MatchIndexSpec(table, newest.date);
  }

  /** Row `i` lies in the window the merge writes: the rows from the anchor upward, one per captured row. */
  predicate InWindow(i: int, newest: nat, count: nat)
  {
    newest - count < i <= newest
  }

  /** The table after the merge, row by row: window rows overwritten, the rest kept. */
  function Spliced(table: seq<Row>, captures: seq<Capture>, newest: nat): seq<Row>
    requires |captures| - 1 <= newest < |table|
  {
    seq(|table|, i requires 0 <= i < |table| =>
      if InWindow(i, newest, |captures|) then Overwrite(table[i], captures[newest - i]) else table[i])
  }

  /**
   The merge loop. Two counters step together: one walks the captured rows
   down from the newest, the other walks the table up from the anchor. The
   source would enlarge the table when the anchor is too close to its top, so
   the anchor must leave room for every captured row.
   */
  method SpliceRows(table: seq<Row>, captures: seq<Capture>, newest: nat) returns (out: seq<Row>, steps: nat)
    requires 0 < |captures|
    requires |captures| - 1 <= newest < |table|
    ensures out == Spliced(table, captures, newest)
    ensures steps == |captures|
    ensures |out| == |table|
    ensures forall k :: 0 <= k < |captures| ==> out[newest - k] == Overwrite(table[newest - k], captures[k])
    ensures forall i :: 0 <= i < |table| && !InWindow(i, newest, |captures|) ==> out[i] == table[i]
    ensures forall i :: 0 <= i < |table| ==> SameOtherColumns(table[i], out[i])
  {
    out := table;
    var tableStep, captureStep := 0, 0;
    var last := |captures| - 1;
    steps := 0;
    while captureStep <= last
      invariant 0 <= captureStep <= |captures|
      invariant tableStep == captureStep == steps
      invariant |out| == |table|
      invariant forall i :: 0 <= i < |table| ==>
                  out[i] == if InWindow(i, newest, captureStep) then Overwrite(table[i], captures[newest - i]) else table[i]
    {
      var row := newest - tableStep;
      out := out[row := Overwrite(out[row], captures[captureStep])];
      tableStep := tableStep + 1;
      captureStep := captureStep + 1;
      steps := steps + 1;
    }
  }

  /** Merging the same captured rows a second time at the same anchor changes nothing. */
  lemma SplicedIdempotent(table: seq<Row>, captures: seq<Capture>, newest: nat)
    requires |captures| - 1 <= newest < |table|
    ensures Spliced(Spliced(table, captures, newest), captures, newest) == Spliced(table, captures, newest)
  {
    var once := Spliced(table, captures, newest);
    var twice := Spliced(once, captures, newest);
    forall i | 0 <= i < |table|
      ensures twice[i] == once[i]
    {
      if InWindow(i, newest, |captures|) {
        var c := captures[newest - i];
        assert Overwrite(Overwrite(table[i], c), c) == Overwrite(table[i], c);
      }
    }
  }

  /** The table has a row dated `d`. */
  predicate HasDate(table: seq<Row>, d: Date)
  {
    exists i :: 0 <= i < |table| && table[i].date == d
  }

  /** The table has a row for the newest report's date. */
  predicate HasNewest(table: seq<Row>, captures: seq<Capture>)
    requires 0 < |captures|
  {
    HasDate(table, captures[0].time.date)
  }

  /** The anchor row the search settles on for the newest report's date. */
  function Anchor(table: seq<Row>, captures: seq<Capture>): nat
    requires 0 < |captures|
  {
    MatchIndex(table, captures[0].time.date)
  }

  /**
   The whole update of the data table: find the anchor row for the newest
   report's date, then merge. When the table has a row for that date, the
   newest report lands in the last such row.
   */
  method UpdateTable(table: seq<Row>, captures: seq<Capture>) returns (out: seq<Row>)
    requires 0 < |captures|
    requires |captures| - 1 <= Anchor(table, captures) < |table|
    ensures |out| == |table|
    ensures out == Spliced(table, captures, Anchor(table, captures))
    ensures HasNewest(table, captures) ==>
              out[Anchor(table, captures)].date == captures[0].time.date &&
              out[Anchor(table, captures)] == Overwrite(table[Anchor(table, captures)], captures[0])
  {
    var newest := FindNewestRow(table, captures[0].time);
    var steps;
    out, steps := SpliceRows(table, captures, newest);
  }

  /**
   When the table has a row for the newest report's date, the last such row
   leaves room above it for every report.
   */
  predicate RoomForReports(table: seq<Row>, captures: seq<Capture>)
    requires 0 < |captures|
  {
    HasNewest(table, captures) ==> |captures| - 1 <= Anchor(table, captures)
  }

  /**
   With the default anchor, a report whose date has no row in the table is
   written into row 0, a row of a different date: a one-row table dated
   1 April 2020 receives the numbers of a report of 20 April 2020.
   */
  lemma DefaultAnchorMisplaces()
    ensures var table := [Row(Date(2020, 4, 1), Empty, Empty, Empty, Empty, Empty, Empty, Empty, Empty, Empty, Empty, Empty)];
            var captures := [Capture(DateTime(Date(2020, 4, 20), 10, 0, 0), Num(1), Num(2), Num(3), Num(4))];
            && !HasDate(table, captures[0].time.date)
            && MatchIndex(table, captures[0].time.date) == 0
            && Spliced(table, captures, 0)[0].date != captures[0].time.date
            && Column(Spliced(table, captures, 0)[0], Hospitalized) == Num(1)
  {
    var table := [Row(Date(2020, 4, 1), Empty, Empty, Empty, Empty, Empty, Empty, Empty, Empty, Empty, Empty, Empty)];
    var d := Date(2020, 4, 20);
    assert table[0].date != d;
    assert table[..0] == [];
  }

  /**
   For every table without a row for the newest report's date: the anchor
   falls back to row 0, and row 0, dated otherwise, receives the newest report.
   */
  lemma DefaultAnchorMisplacesAll(table: seq<Row>, captures: seq<Capture>)
    requires |captures| == 1 && 0 < |table|
    requires !HasNewest(table, captures)
    ensures Anchor(table, captures) == 0
    ensures Spliced(table, captures, 0)[0].date != captures[0].time.date
    ensures Spliced(table, captures, 0)[0] == Overwrite(table[0], captures[0])
  {
    MatchIndexSpec(table, captures[0].time.date);
  }

  /**
   The update with the anchor checked: when the table has no row for the
   newest report's date, nothing is merged; otherwise the merge runs from
   the last row of that date, which receives the newest report.
   */
  method UpdateTableAnchored(table: seq<Row>, captures: seq<Capture>) returns (out: Option<seq<Row>>)
    requires 0 < |captures|
    requires RoomForReports(table, captures)
    ensures out.None? <==> !HasNewest(table, captures)
    ensures out.Some? ==>
              && Anchor(table, captures) < |table|
              && out.value == Spliced(table, captures, Anchor(table, captures))
    ensures out.Some? ==>
              && Anchor(table, captures) < |table|
              && out.value[Anchor(table, captures)].date == captures[0].time.date
              && out.value[Anchor(table, captures)] == Overwrite(table[Anchor(table, captures)], captures[0])
  {
    var newest := FindNewestRow(table, captures[0].time);
    if HasDate(table, captures[0].time.date) {
      var merged, steps := SpliceRows(table, captures, newest);
      out := Some(merged);
    } else {
      out := None;
    }
  }
}
