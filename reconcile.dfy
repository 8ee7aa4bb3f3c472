/** `fillResults` (content.js:199-275): for every body row of the results table, decide
    whether the row is eligible, find the opponent in the standings index, compute the
    metrics and write the blank cells among 3 (result), 4 (record) and 5 (rank) in place. */
module Reconcile {
  import opened Wrappers
  import opened Text
  import opened Numbers
  import opened Standings
  import opened MatchDay
  import opened Matcher
  import opened Metrics

  /** The values the `title` tooltip of a filled result cell shows (content.js:249-254). */
  datatype Tooltip = Tooltip(oppTca: real, oppPcaa: real, playerTca: real, playerPcaa: real, m: Metrics)

  /** A cell's background: as the page rendered it, cleared by `applyHalfShade`, or the
      two-halves gradient with the left half red and/or the right half green. */
  datatype Background = Original | Cleared | Halves(leftRed: bool, rightGreen: bool)

  /** One `td` of a results row: its text, its `title` tooltip, and its background. */
  datatype Cell = Cell(text: string, title: Option<Tooltip>, background: Background)

  /** U+22C5, the dot operator between the two averages of the result text. */
  const DotOperator: char := '\U{22C5}'

  /** What `fillResults` decided for one row. */
  datatype Plan =
    | Untouched
    | Fill(data: Entry, m: Metrics, resultBlank: bool, recordBlank: bool, rankBlank: bool)

  /** A cell is blank when its text normalizes to "". */
  predicate Blank(c: Cell) {
    Normalize(c.text) == ""
  }

  /** The eligibility the row must pass and the lookup of its opponent (content.js:205-236),
      then the metrics of the entry found (content.js:238-246). */
  function PlanRow(cells: seq<Cell>, idx: Index, playerTca: real, playerPcaa: real): Plan
    requires idx.Valid()
  {
    if |cells| < 6 then Untouched
    else
      var md := ParseMatchDayNumber(cells[0].text);
      if md.None? || md.value < 2 || md.value > 25 then Untouched
      else
        var resultBlank, recordBlank, rankBlank := Blank(cells[3]), Blank(cells[4]), Blank(cells[5]);
        if !(resultBlank || recordBlank || rankBlank) then Untouched
        else
          var opp := Normalize(cells[1].text);
          if opp == "" then Untouched
          else
            match Lookup(idx, opp)
            case None => Untouched
            case Some(data) =>
              Fill(data, Compute(data, playerTca, playerPcaa), resultBlank, recordBlank, rankBlank)
  }

  /** `${OEPAA.toFixed(3)}⋅${PEPAA.toFixed(3)}`. */
  function ResultText(m: Metrics): string {
    ToFixed3(m.oepaa) + [DotOperator] + ToFixed3(m.pepaa)
  }

  /** `applyHalfShade(cell, leftRed, rightGreen)`: with neither flag the background is
      cleared; otherwise it becomes the two-halves gradient. */
  function ApplyHalfShade(c: Cell, s: Shade): Cell {
    if !s.leftRed && !s.rightGreen then c.(background := Cleared)
    else c.(background := Halves(s.leftRed, s.rightGreen))
  }

  /** The result cell after content.js:256-266: the two averages as text, the tooltip, and
      the shading of the averages' comparison. */
  function FilledResult(c: Cell, data: Entry, m: Metrics, playerTca: real, playerPcaa: real): Cell {
    var t := c.(text := ResultText(m), title := Some(Tooltip(data.tca, data.pcaa, playerTca, playerPcaa, m)));
    ApplyHalfShade(t, Flags(m.pepaa, m.oepaa))
  }

  /** The row after the writes of content.js:256-269 that a plan calls for. */
  function Apply(cells: seq<Cell>, p: Plan, playerTca: real, playerPcaa: real): seq<Cell>
    requires p.Fill? ==> |cells| >= 6
  {
    match p
    case Untouched => cells
    case Fill(data, m, resultBlank, recordBlank, rankBlank) =>
      var c3 := if resultBlank then FilledResult(cells[3], data, m, playerTca, playerPcaa) else cells[3];
      var c4 := if recordBlank then cells[4].(text := data.record) else cells[4];
      var c5 := if rankBlank then cells[5].(text := data.rank) else cells[5];
      cells[3 := c3][4 := c4][5 := c5]
  }

  /** The row as `fillResults` leaves it. */
  function FillRow(cells: seq<Cell>, idx: Index, playerTca: real, playerPcaa: real): seq<Cell>
    requires idx.Valid()
  {
    Apply(cells, PlanRow(cells, idx, playerTca, playerPcaa), playerTca, playerPcaa)
  }

  /** The number of rows among `rows` that are filled. */
  function FilledCount(rows: seq<seq<Cell>>, idx: Index, playerTca: real, playerPcaa: real): nat
    requires idx.Valid()
  {
    if rows == [] then 0
    else
      FilledCount(rows[..|rows| - 1], idx, playerTca, playerPcaa) +
      (if PlanRow(rows[|rows| - 1], idx, playerTca, playerPcaa).Fill? then 1 else 0)
  }

  /** The body of the loop of content.js:204-272 for one row, with its `continue`s. */
  method ReconcileRow(cells: seq<Cell>, idx: Index, playerTca: real, playerPcaa: real)
    returns (out: seq<Cell>, filled: bool)
    requires idx.Valid()
    ensures out == FillRow(cells, idx, playerTca, playerPcaa)
    ensures filled <==> PlanRow(cells, idx, playerTca, playerPcaa).Fill?
    ensures !filled ==> out == cells
  {
    out := cells;
    filled := false;
    if |cells| < 6 {
      return;
    }
    var mdNum := ParseMatchDayNumber(cells[0].text);
    if mdNum.None? || mdNum.value < 2 || mdNum.value > 25 {
      return;
    }
    var resultBlank := Normalize(cells[3].text) == "";
    var recordBlank := Normalize(cells[4].text) == "";
    var rankBlank := Normalize(cells[5].text) == "";
    if !(resultBlank || recordBlank || rankBlank) {
      return;
    }
    var opponentDisplay := Normalize(cells[1].text);
    if opponentDisplay == "" {
      return;
    }
    var data := ResolveOpponent(idx, opponentDisplay);
    if data.None? {
      return;
    }
    var m := Compute(data.value, playerTca, playerPcaa);
    assert PlanRow(cells, idx, playerTca, playerPcaa) == Fill(data.value, m, resultBlank, recordBlank, rankBlank);
    var c3, c4, c5 := cells[3], cells[4], cells[5];
    if resultBlank {
      c3 := FilledResult(c3, data.value, m, playerTca, playerPcaa);
    }
    if recordBlank {
      c4 := c4.(text := data.value.record);
    }
    if rankBlank {
      c5 := c5.(text := data.value.rank);
    }
    out := cells[3 := c3][4 := c4][5 := c5];
    filled := true;
  }

  /** Every row as `fillResults` leaves it. */
  function FillRows(rows: seq<seq<Cell>>, idx: Index, playerTca: real, playerPcaa: real): (r: seq<seq<Cell>>)
    requires idx.Valid()
    ensures |r| == |rows|
  {
    if rows == [] then []
    else FillRows(rows[..|rows| - 1], idx, playerTca, playerPcaa) + [FillRow(rows[|rows| - 1], idx, playerTca, playerPcaa)]
  }

  /** `fillResults`: every row of the results table body is reconciled in place, in order;
      the count of filled rows is returned (the source logs it). */
  method FillResults(rows: array<seq<Cell>>, idx: Index, playerTca: real, playerPcaa: real)
    returns (filled: nat)
    requires idx.Valid()
    modifies rows
    ensures rows[..] == FillRows(old(rows[..]), idx, playerTca, playerPcaa)
    ensures filled == FilledCount(old(rows[..]), idx, playerTca, playerPcaa)
  {
    ghost var before := rows[..];
    filled := 0;
    var i := 0;
    while i < rows.Length
      invariant 0 <= i <= rows.Length == |before|
      invariant rows[..] == FillRows(before[..i], idx, playerTca, playerPcaa) + before[i..]
      invariant filled == FilledCount(before[..i], idx, playerTca, playerPcaa)
    {
      ghost var cur := rows[..];
      RowsDone(before, i, idx, playerTca, playerPcaa);
      var out, ok := ReconcileRow(rows[i], idx, playerTca, playerPcaa);
      FillStep(before, i, out, ok, idx, playerTca, playerPcaa);
      if ok {
        rows[i] := out;
        filled := filled + 1;
      }
      assert rows[..] == cur[i := out];
      i := i + 1;
    }
    assert before[..rows.Length] == before;
  }

  /** Row `i` of the rows done so far and the rows still to do is the original row `i`. */
  lemma RowsDone(before: seq<seq<Cell>>, i: nat, idx: Index, playerTca: real, playerPcaa: real)
    requires idx.Valid() && i < |before|
    ensures (FillRows(before[..i], idx, playerTca, playerPcaa) + before[i..])[i] == before[i]
  {
    assert before[i..][0] == before[i];
  }

  /** One more row of the loop: reconciling row `i` turns the rows done so far into one
      more, and the count grows by one when the row was filled. */
  lemma FillStep(before: seq<seq<Cell>>, i: nat, out: seq<Cell>, ok: bool, idx: Index, playerTca: real, playerPcaa: real)
    requires idx.Valid() && i < |before|
    requires out == FillRow(before[i], idx, playerTca, playerPcaa)
    requires ok <==> PlanRow(before[i], idx, playerTca, playerPcaa).Fill?
    ensures FillRows(before[..i + 1], idx, playerTca, playerPcaa) + before[i + 1..] ==
      (FillRows(before[..i], idx, playerTca, playerPcaa) + before[i..])[i := out]
    ensures FilledCount(before[..i + 1], idx, playerTca, playerPcaa) ==
      FilledCount(before[..i], idx, playerTca, playerPcaa) + (if ok then 1 else 0)
  {
    assert before[..i + 1][..i] == before[..i];
  }

  // ---------------------------------------------------------------------------------------
  // Properties of one row

  /** A row is left as it is exactly when it has fewer than six cells, its match day is
      missing or outside 2..25, none of cells 3, 4 and 5 is blank, its opponent name is empty,
      or the opponent is not found. */
  lemma UntouchedIff(cells: seq<Cell>, idx: Index, playerTca: real, playerPcaa: real)
    requires idx.Valid()
    ensures PlanRow(cells, idx, playerTca, playerPcaa).Untouched? <==>
      |cells| < 6 ||
      ParseMatchDayNumber(cells[0].text).None? ||
      !(2 <= ParseMatchDayNumber(cells[0].text).value <= 25) ||
      (!Blank(cells[3]) && !Blank(cells[4]) && !Blank(cells[5])) ||
      Normalize(cells[1].text) == "" ||
      Lookup(idx, Normalize(cells[1].text)).None?
    ensures PlanRow(cells, idx, playerTca, playerPcaa).Untouched? ==> FillRow(cells, idx, playerTca, playerPcaa) == cells
  {
  }

  /** A plan writes only cells 3, 4 and 5, and of those only the ones it found blank. */
  lemma ApplyWritesTargets(cells: seq<Cell>, p: Plan, playerTca: real, playerPcaa: real)
    requires p.Fill? ==> |cells| >= 6
    ensures var r := Apply(cells, p, playerTca, playerPcaa);
      |r| == |cells| &&
      (forall c :: 0 <= c < |cells| && c != 3 && c != 4 && c != 5 ==> r[c] == cells[c]) &&
      (p.Fill? && !p.resultBlank ==> r[3] == cells[3]) &&
      (p.Fill? && !p.recordBlank ==> r[4] == cells[4]) &&
      (p.Fill? && !p.rankBlank ==> r[5] == cells[5])
  {
  }

  /** The flags of a filled row say which of cells 3, 4 and 5 are blank. */
  lemma PlanFlags(cells: seq<Cell>, idx: Index, playerTca: real, playerPcaa: real)
    requires idx.Valid()
    ensures var p := PlanRow(cells, idx, playerTca, playerPcaa);
      p.Fill? ==> (|cells| >= 6 && p.resultBlank == Blank(cells[3]) &&
                   p.recordBlank == Blank(cells[4]) && p.rankBlank == Blank(cells[5]))
  {
  }

  /** Filling writes only cells 3, 4 and 5, and of those only the blank ones; the row keeps
      its length. */
  lemma OnlyBlankTargetsChange(cells: seq<Cell>, idx: Index, playerTca: real, playerPcaa: real)
    requires idx.Valid()
    ensures var r := FillRow(cells, idx, playerTca, playerPcaa);
      |r| == |cells| &&
      (forall c :: 0 <= c < |cells| && c != 3 && c != 4 && c != 5 ==> r[c] == cells[c]) &&
      (forall c :: 3 <= c <= 5 && c < |cells| && !Blank(cells[c]) ==> r[c] == cells[c])
  {
    var p := PlanRow(cells, idx, playerTca, playerPcaa);
    PlanFlags(cells, idx, playerTca, playerPcaa);
    ApplyWritesTargets(cells, p, playerTca, playerPcaa);
  }

  /** What a plan writes into each blank target cell: the record and the rank verbatim, and
      in the result cell the two averages, the tooltip and the shading. */
  lemma ApplyWrites(cells: seq<Cell>, p: Plan, playerTca: real, playerPcaa: real)
    requires p.Fill? && |cells| >= 6
    ensures var r := Apply(cells, p, playerTca, playerPcaa);
      (p.recordBlank ==> r[4] == cells[4].(text := p.data.record)) &&
      (p.rankBlank ==> r[5] == cells[5].(text := p.data.rank)) &&
      (p.resultBlank ==>
        r[3].text == ResultText(p.m) &&
        r[3].title == Some(Tooltip(p.data.tca, p.data.pcaa, playerTca, playerPcaa, p.m)) &&
        r[3].background == (if p.m.pepaa == p.m.oepaa then Cleared else Halves(p.m.oepaa > p.m.pepaa, p.m.pepaa > p.m.oepaa)))
  {
  }

  /** A filled row uses the entry the matcher found for its normalized opponent name and the
      metrics of that entry. */
  lemma PlanFillData(cells: seq<Cell>, idx: Index, playerTca: real, playerPcaa: real)
    requires idx.Valid()
    requires PlanRow(cells, idx, playerTca, playerPcaa).Fill?
    ensures var p := PlanRow(cells, idx, playerTca, playerPcaa);
      |cells| >= 6 && Lookup(idx, Normalize(cells[1].text)) == Some(p.data) &&
      p.m == Compute(p.data, playerTca, playerPcaa)
  {
  }

  /** In a filled row, a blank record cell gets the entry's record and a blank rank cell its
      rank, verbatim, and a blank result cell the two averages, the tooltip and the shading. */
  lemma FilledCells(cells: seq<Cell>, idx: Index, playerTca: real, playerPcaa: real)
    requires idx.Valid()
    requires PlanRow(cells, idx, playerTca, playerPcaa).Fill?
    ensures var p := PlanRow(cells, idx, playerTca, playerPcaa);
      var r := FillRow(cells, idx, playerTca, playerPcaa);
      Lookup(idx, Normalize(cells[1].text)) == Some(p.data) &&
      p.m == Compute(p.data, playerTca, playerPcaa) &&
      (Blank(cells[4]) ==> r[4] == cells[4].(text := p.data.record)) &&
      (Blank(cells[5]) ==> r[5] == cells[5].(text := p.data.rank)) &&
      (Blank(cells[3]) ==>
        r[3].text == ResultText(p.m) &&
        r[3].title == Some(Tooltip(p.data.tca, p.data.pcaa, playerTca, playerPcaa, p.m)) &&
        r[3].background == (if p.m.pepaa == p.m.oepaa then Cleared else Halves(p.m.oepaa > p.m.pepaa, p.m.pepaa > p.m.oepaa)))
  {
    var p := PlanRow(cells, idx, playerTca, playerPcaa);
    PlanFillData(cells, idx, playerTca, playerPcaa);
    PlanFlags(cells, idx, playerTca, playerPcaa);
    ApplyWrites(cells, p, playerTca, playerPcaa);
  }

  /** The text of a filled result cell is the opponent's average, the dot operator and the
      player's average: the dot operator occurs once, and `parseFloat` reads each side back
      within half a thousandth of its average. */
  lemma ResultTextReadsBack(m: Metrics)
    ensures var t := ResultText(m);
      var k := |ToFixed3(m.oepaa)|;
      k < |t| && t[k] == DotOperator &&
      DotOperator !in t[..k] && DotOperator !in t[k + 1..] &&
      ParseFloat(t[..k]).Some? && -0.0005 <= ParseFloat(t[..k]).value - m.oepaa <= 0.0005 &&
      ParseFloat(t[k + 1..]).Some? && -0.0005 <= ParseFloat(t[k + 1..]).value - m.pepaa <= 0.0005
  {
    var a, b := ToFixed3(m.oepaa), ToFixed3(m.pepaa);
    var t := ResultText(m);
    assert t[..|a|] == a;
    assert t[|a| + 1..] == b;
    ToFixed3Chars(m.oepaa);
    ToFixed3Chars(m.pepaa);
    ToFixed3Accurate(m.oepaa);
    ToFixed3Accurate(m.pepaa);
  }

  // ---------------------------------------------------------------------------------------
  // Properties of the whole table

  /** Each row is reconciled on its own: row `i` of the result is row `i` reconciled alone,
      whatever the other rows hold. */
  lemma {:induction false} FillRowsAt(rows: seq<seq<Cell>>, i: nat, idx: Index, playerTca: real, playerPcaa: real)
    requires idx.Valid() && i < |rows|
    ensures FillRows(rows, idx, playerTca, playerPcaa)[i] == FillRow(rows[i], idx, playerTca, playerPcaa)
    decreases |rows|
  {
    var init := rows[..|rows| - 1];
    var done := FillRows(init, idx, playerTca, playerPcaa);
    assert FillRows(rows, idx, playerTca, playerPcaa) == done + [FillRow(rows[|rows| - 1], idx, playerTca, playerPcaa)];
    if i < |init| {
      FillRowsAt(init, i, idx, playerTca, playerPcaa);
      assert init[i] == rows[i];
      assert (done + [FillRow(rows[|rows| - 1], idx, playerTca, playerPcaa)])[i] == done[i];
    }
  }

  /** At most every row is filled. */
  lemma {:induction false} FilledCountBound(rows: seq<seq<Cell>>, idx: Index, playerTca: real, playerPcaa: real)
    requires idx.Valid()
    ensures FilledCount(rows, idx, playerTca, playerPcaa) <= |rows|
    decreases |rows|
  {
    if rows != [] {
      FilledCountBound(rows[..|rows| - 1], idx, playerTca, playerPcaa);
    }
  }

  /** No row is filled exactly when every row is left untouched. */
  lemma {:induction false} NothingFilledIff(rows: seq<seq<Cell>>, idx: Index, playerTca: real, playerPcaa: real)
    requires idx.Valid()
    ensures FilledCount(rows, idx, playerTca, playerPcaa) == 0 <==>
      forall i :: 0 <= i < |rows| ==> !PlanRow(rows[i], idx, playerTca, playerPcaa).Fill?
    decreases |rows|
  {
    if rows == [] {
      assert FilledCount(rows, idx, playerTca, playerPcaa) == 0;
    } else {
      var init, last := rows[..|rows| - 1], rows[|rows| - 1];
      NothingFilledIff(init, idx, playerTca, playerPcaa);
      var lastFilled := PlanRow(last, idx, playerTca, playerPcaa).Fill?;
      assert FilledCount(rows, idx, playerTca, playerPcaa) ==
        FilledCount(init, idx, playerTca, playerPcaa) + (if lastFilled then 1 else 0);
      if FilledCount(rows, idx, playerTca, playerPcaa) == 0 {
        assert !lastFilled;
        forall i | 0 <= i < |rows| ensures !PlanRow(rows[i], idx, playerTca, playerPcaa).Fill? {
          if i < |init| {
            assert init[i] == rows[i];
          } else {
            assert rows[i] == last;
          }
        }
      } else if lastFilled {
        assert PlanRow(rows[|rows| - 1], idx, playerTca, playerPcaa).Fill?;
      } else {
        var i :| 0 <= i < |init| && PlanRow(init[i], idx, playerTca, playerPcaa).Fill?;
        assert init[i] == rows[i];
      }
    }
  }
}
