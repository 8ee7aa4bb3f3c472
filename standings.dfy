/** `parseStandings` (content.js:92-176): choose the standings table of a fetched rundle
    page by its header row, read every body row into an entry, and collect the entries in a
    JavaScript `Map` keyed by the player's display name. */
module Standings {
  import opened Wrappers
  import opened Text
  import opened Numbers
  import opened Tables

  /** The payload stored for one player. */
  datatype Entry = Entry(tca: real, pcaa: real, w: int, l: int, t: int, record: string, rank: string)

  /** A JavaScript `Map` from display names to entries: `keys` in iteration order (the order
      of first insertion) and `entries` the current value of each key. */
  datatype Index = Index(keys: seq<string>, entries: map<string, Entry>) {
    /** The keys are distinct and are exactly the names that have an entry. */
    ghost predicate Valid() {
      (forall i, j :: 0 <= i < j < |keys| ==> keys[i] != keys[j]) &&
      (forall k :: k in entries <==> k in keys)
    }

    /** `map.set(k, e)`: the value of `k` becomes `e`; a new key goes to the end of the
        iteration order, a key already present keeps its position. */
    function Put(k: string, e: Entry): (r: Index)
      requires Valid()
      ensures r.Valid()
      ensures r.entries == entries[k := e]
      ensures k in keys ==> r.keys == keys
      ensures k !in keys ==> r.keys == keys + [k]
    {
      if k in entries then Index(keys, entries[k := e]) else Index(keys + [k], entries[k := e])
    }
  }

  /** The column positions `parseStandings` reads each body row with. */
  datatype Columns = Columns(rank: nat, player: nat, w: nat, l: nat, t: nat, tca: nat, pcaa: nat)

  /** `c` is the first position of `x` in `h`, as `indexOf` reports it. */
  predicate FirstPosition(h: seq<string>, x: string, c: nat) {
    c < |h| && h[c] == x && forall j :: 0 <= j < c ==> h[j] != x
  }

  /** `headers.indexOf(x)`: the first position of `x`, or -1. */
  function IndexOf(h: seq<string>, x: string): (r: int)
    ensures -1 <= r < |h|
  {
    if h == [] then -1
    else if h[0] == x then 0
    else
      var k := IndexOf(h[1..], x);
      if k < 0 then -1 else k + 1
  }

  /** `indexOf` reports the first position of `x`, and -1 exactly when `x` is absent. */
  lemma {:induction false} IndexOfSpec(h: seq<string>, x: string)
    ensures IndexOf(h, x) >= 0 ==> FirstPosition(h, x, IndexOf(h, x))
    ensures IndexOf(h, x) < 0 <==> x !in h
  {
    if h != [] && h[0] != x {
      IndexOfSpec(h[1..], x);
      assert forall j :: 1 <= j < |h| ==> h[j] == h[1..][j - 1];
      assert x in h ==> x in h[1..] by {
        if x in h {
          var j :| 0 <= j < |h| && h[j] == x;
          assert h[1..][j - 1] == x;
        }
      }
    }
  }

  /** The column record of content.js:110-131 for one comparable header row: `None` when an
      essential header is missing; the rank column is the first RANK cell, or column 0 when
      there is none. */
  function HeaderColumns(h: seq<string>): Option<Columns> {
    var rank, player := IndexOf(h, "RANK"), IndexOf(h, "PLAYER");
    var w, l, t := IndexOf(h, "W"), IndexOf(h, "L"), IndexOf(h, "T");
    var tca, pcaa := IndexOf(h, "TCA"), IndexOf(h, "PCAA");
    if player >= 0 && w >= 0 && l >= 0 && t >= 0 && tca >= 0 && pcaa >= 0 then
      Some(Columns(if rank >= 0 then rank else 0, player, w, l, t, tca, pcaa))
    else
      None
  }

  /** A table the header scan of content.js:103-133 accepts: it has a header row with at
      least one cell, and its comparable header texts hold every essential header. */
  predicate StandingsTable(t: Table) {
    t.header.Some? && |t.header.value| > 0 && HeaderColumns(Comparable(t.header.value)).Some?
  }

  /** The columns of a table the header scan accepts. */
  function ColumnsOf(t: Table): Columns
    requires StandingsTable(t)
  {
    HeaderColumns(Comparable(t.header.value)).value
  }

  /** The first table at or after position `i` that the header scan accepts. */
  function FirstStandingsTable(doc: seq<Table>, i: nat): (r: Option<nat>)
    requires i <= |doc|
    decreases |doc| - i
    ensures r.Some? ==> i <= r.value < |doc| && StandingsTable(doc[r.value])
    ensures r.Some? ==> forall j :: i <= j < r.value ==> !StandingsTable(doc[j])
    ensures r.None? ==> forall j :: i <= j < |doc| ==> !StandingsTable(doc[j])
  {
    if i == |doc| then None
    else if StandingsTable(doc[i]) then Some(i)
    else FirstStandingsTable(doc, i + 1)
  }

  /** `clean` applied to the text of every cell of a body row. */
  function Clean(row: seq<string>): (r: seq<string>)
    ensures |r| == |row|
  {
    if row == [] then [] else [Normalize(row[0])] + Clean(row[1..])
  }

  lemma {:induction false} CleanAt(row: seq<string>, c: nat)
    requires c < |row|
    ensures Clean(row)[c] == Normalize(row[c])
    decreases |row|
  {
    if c > 0 {
      CleanAt(row[1..], c - 1);
    }
  }

  /** The cleaned text of cell `c`, or "" when the row has no such cell. */
  function CellText(cells: seq<string>, c: nat): string {
    if c < |cells| then cells[c] else ""
  }

  /** The `record` text `${w}-${l}-${t}`. */
  function Record(w: int, l: int, t: int): string {
    IntToString(w) + "-" + IntToString(l) + "-" + IntToString(t)
  }

  /** What one body row contributes: nothing, or a name and its entry. */
  datatype RowOutcome = Skipped | Kept(name: string, entry: Entry)

  /** The `forEach` callback of content.js:142-172 for the row at position `idx` among all
      body rows of the table, given the cleaned texts of its cells. A missing rank cell falls
      back to the text `String(idx + 1)`, which `clean` leaves as it is (DecimalNormalized). */
  function ParseRow(cols: Columns, cells: seq<string>, idx: nat): RowOutcome {
    if cells == [] then Skipped
    else if forall c :: 0 <= c < |cells| ==> cells[c] == "" then Skipped
    else
      var rankText := if cols.rank < |cells| then cells[cols.rank] else Decimal(idx + 1);
      var name := CellText(cells, cols.player);
      if name == "" then Skipped
      else
        var w, l, t := ParseInt(CellText(cells, cols.w)), ParseInt(CellText(cells, cols.l)), ParseInt(CellText(cells, cols.t));
        var tca, pcaa := ParseFloat(CellText(cells, cols.tca)), ParseFloat(CellText(cells, cols.pcaa));
        if w.None? || l.None? || t.None? || tca.None? || pcaa.None? then Skipped
        else
          var rank := if rankText != "" then rankText else Decimal(idx + 1);
          Kept(name, Entry(tca.value, pcaa.value, w.value, l.value, t.value, Record(w.value, l.value, t.value), rank))
  }

  /** The outcome of every body row, each with its own position. */
  function Outcomes(cols: Columns, rows: seq<seq<string>>): (r: seq<RowOutcome>)
    ensures |r| == |rows|
  {
    seq(|rows|, i requires 0 <= i < |rows| => ParseRow(cols, Clean(rows[i]), i))
  }

  /** The `Map` after `map.set` has run, in order, for every kept outcome. */
  function Insert(outs: seq<RowOutcome>): (r: Index)
    ensures r.Valid()
    decreases |outs|
  {
    if outs == [] then Index([], map[])
    else
      var m := Insert(outs[..|outs| - 1]);
      var o := outs[|outs| - 1];
      if o.Kept? then m.Put(o.name, o.entry) else m
  }

  /** The result of `parseStandings` on a document: `None` when no table passes the header
      scan or when no body row survives; otherwise the index of the surviving rows. */
  function Standings(doc: seq<Table>): (r: Option<Index>)
    ensures r.Some? ==> r.value.Valid() && r.value.keys != []
    ensures FirstStandingsTable(doc, 0).None? ==> r.None?
  {
    match FirstStandingsTable(doc, 0)
    case None => None
    case Some(k) =>
      var m := Insert(Outcomes(ColumnsOf(doc[k]), doc[k].body));
      if m.keys == [] then None else Some(m)
  }

  /** The header scan of content.js:103-133: the tables are tried in document order and the
      first one the scan accepts is chosen. */
  method FindStandingsTable(doc: seq<Table>) returns (r: Option<nat>)
    ensures r == FirstStandingsTable(doc, 0)
  {
    var k := 0;
    while k < |doc|
      invariant 0 <= k <= |doc|
      invariant FirstStandingsTable(doc, k) == FirstStandingsTable(doc, 0)
    {
      if StandingsTable(doc[k]) {
        return Some(k);
      }
      k := k + 1;
    }
    return None;
  }

  /** The `forEach` of content.js:142-172: every body row is read in order and each kept row
      is `set` into the `Map`. */
  method ReadRows(cols: Columns, rows: seq<seq<string>>) returns (m: Index)
    ensures m == Insert(Outcomes(cols, rows))
  {
    ghost var outs := Outcomes(cols, rows);
    m := Index([], map[]);
    var i := 0;
    while i < |rows|
      invariant 0 <= i <= |rows|
      invariant m == Insert(outs[..i])
    {
      var o := ParseRow(cols, Clean(rows[i]), i);
      assert o == outs[i];
      assert outs[..i + 1][..i] == outs[..i];
      if o.Kept? {
        m := m.Put(o.name, o.entry);
      }
      i := i + 1;
    }
    assert outs[..|rows|] == outs;
  }

  /** `parseStandings` on a parsed document: the header scan stops at the first accepted
      table, then every body row is read in order into the `Map`. */
  method ParseStandings(doc: seq<Table>) returns (r: Option<Index>)
    ensures r == Standings(doc)
  {
    var found := FindStandingsTable(doc);
    if found.None? {
      return None;
    }
    var k := found.value;
    var m := ReadRows(ColumnsOf(doc[k]), doc[k].body);
    if m.keys == [] {
      return None;
    }
    return Some(m);
  }

  // ---------------------------------------------------------------------------------------
  // Properties of one row

  /** A body row is dropped exactly when it has no cells, only blank cells, an empty player
      name, or a W, L, T, TCA or PCAA cell that does not parse. */
  lemma SkipIff(cols: Columns, row: seq<string>, idx: nat)
    ensures ParseRow(cols, Clean(row), idx).Skipped? <==>
      row == [] ||
      (forall c :: 0 <= c < |row| ==> Normalize(row[c]) == "") ||
      cols.player >= |row| || Normalize(row[cols.player]) == "" ||
      ParseInt(CellText(Clean(row), cols.w)).None? || ParseInt(CellText(Clean(row), cols.l)).None? ||
      ParseInt(CellText(Clean(row), cols.t)).None? ||
      ParseFloat(CellText(Clean(row), cols.tca)).None? || ParseFloat(CellText(Clean(row), cols.pcaa)).None?
  {
    var cells := Clean(row);
    forall c | 0 <= c < |row| ensures cells[c] == Normalize(row[c]) {
      CleanAt(row, c);
    }
  }

  /** The decimal text of a number is already normalized. */
  lemma DecimalNormalized(n: nat)
    ensures Normalize(Decimal(n)) == Decimal(n)
  {
    var d := Decimal(n);
    assert forall i :: 0 <= i < |d| ==> !IsWhitespace(d[i]) by {
      forall i | 0 <= i < |d| ensures !IsWhitespace(d[i]) {
        assert IsDigit(d[i]);
      }
    }
    NormalizedFixpoint(d);
  }

  /** The rank of a kept row is the text of its rank cell when that cell exists and is not
      blank, and otherwise the row's 1-based position among all body rows. */
  lemma RankFallback(cols: Columns, row: seq<string>, idx: nat)
    requires ParseRow(cols, Clean(row), idx).Kept?
    ensures ParseRow(cols, Clean(row), idx).entry.rank ==
      if cols.rank < |row| && Normalize(row[cols.rank]) != "" then Normalize(row[cols.rank]) else Decimal(idx + 1)
  {
    if cols.rank < |row| {
      CleanAt(row, cols.rank);
    }
  }

  /** A kept row is stored under the text of its player cell, which exists and is not empty. */
  lemma KeptCells(cols: Columns, cells: seq<string>, idx: nat)
    requires ParseRow(cols, cells, idx).Kept?
    ensures cols.player < |cells| && ParseRow(cols, cells, idx).name == cells[cols.player] != ""
  {
  }

  /** A kept row is stored under the cleaned, non-empty text of its player cell. */
  lemma KeptName(cols: Columns, row: seq<string>, idx: nat)
    requires ParseRow(cols, Clean(row), idx).Kept?
    ensures var n := ParseRow(cols, Clean(row), idx).name;
      cols.player < |row| && n == Normalize(row[cols.player]) && n != "" && IsNormalized(n)
  {
    KeptCells(cols, Clean(row), idx);
    CleanAt(row, cols.player);
    NormalizeShape(row[cols.player]);
  }

  /** The entry of a kept row holds the parsed W, L, T, TCA and PCAA cells, its record is the
      three counts joined by '-', and its rank is never empty. */
  lemma KeptFields(cols: Columns, cells: seq<string>, idx: nat)
    requires ParseRow(cols, cells, idx).Kept?
    ensures var e := ParseRow(cols, cells, idx).entry;
      ParseInt(CellText(cells, cols.w)) == Some(e.w) &&
      ParseInt(CellText(cells, cols.l)) == Some(e.l) &&
      ParseInt(CellText(cells, cols.t)) == Some(e.t) &&
      ParseFloat(CellText(cells, cols.tca)) == Some(e.tca) &&
      ParseFloat(CellText(cells, cols.pcaa)) == Some(e.pcaa) &&
      e.record == Record(e.w, e.l, e.t) &&
      e.rank != ""
  {
  }

  /** The header scan accepts a header row exactly when PLAYER, W, L, T, TCA and PCAA are all
      among its comparable texts; each column is the first cell holding its header, and the
      rank column is the first RANK cell when there is one. */
  lemma HeaderColumnsSpec(h: seq<string>)
    ensures HeaderColumns(h).Some? <==> "PLAYER" in h && "W" in h && "L" in h && "T" in h && "TCA" in h && "PCAA" in h
    ensures var r := HeaderColumns(h);
      r.Some? ==>
        FirstPosition(h, "PLAYER", r.value.player) && FirstPosition(h, "W", r.value.w) &&
        FirstPosition(h, "L", r.value.l) && FirstPosition(h, "T", r.value.t) &&
        FirstPosition(h, "TCA", r.value.tca) && FirstPosition(h, "PCAA", r.value.pcaa) &&
        ("RANK" in h ==> FirstPosition(h, "RANK", r.value.rank))
  {
    IndexOfSpec(h, "RANK");
    IndexOfSpec(h, "PLAYER");
    IndexOfSpec(h, "W");
    IndexOfSpec(h, "L");
    IndexOfSpec(h, "T");
    IndexOfSpec(h, "TCA");
    IndexOfSpec(h, "PCAA");
  }

  /** Without a RANK header the rank column is column 0, not the row position. */
  lemma MissingRankUsesColumnZero(h: seq<string>)
    requires "RANK" !in h && HeaderColumns(h).Some?
    ensures HeaderColumns(h).value.rank == 0
  {
    IndexOfSpec(h, "RANK");
  }

  // ---------------------------------------------------------------------------------------
  // Properties of the index (JavaScript `Map` semantics)

  /** A name is a key exactly when some row kept it. */
  lemma {:induction false} InsertMembership(outs: seq<RowOutcome>, n: string)
    ensures n in Insert(outs).entries <==> exists i :: 0 <= i < |outs| && outs[i].Kept? && outs[i].name == n
    decreases |outs|
  {
    if outs != [] {
      var init := outs[..|outs| - 1];
      InsertMembership(init, n);
      assert forall i :: 0 <= i < |init| ==> init[i] == outs[i];
    }
  }

  /** No key exactly when no row was kept. */
  lemma InsertEmpty(outs: seq<RowOutcome>)
    ensures Insert(outs).keys == [] <==> forall i :: 0 <= i < |outs| ==> outs[i].Skipped?
  {
    var m := Insert(outs);
    if m.keys == [] {
      forall i | 0 <= i < |outs| ensures outs[i].Skipped? {
        if outs[i].Kept? {
          InsertMembership(outs, outs[i].name);
        }
      }
    } else {
      InsertMembership(outs, m.keys[0]);
    }
  }

  /** The last row kept under a name supplies its entry: a later `set` overwrites an earlier
      one. */
  lemma {:induction false} InsertLastWins(outs: seq<RowOutcome>, i: nat)
    requires i < |outs| && outs[i].Kept?
    requires forall j :: i < j < |outs| && outs[j].Kept? ==> outs[j].name != outs[i].name
    ensures outs[i].name in Insert(outs).entries && Insert(outs).entries[outs[i].name] == outs[i].entry
    decreases |outs|
  {
    var init := outs[..|outs| - 1];
    if i < |outs| - 1 {
      assert forall j :: i < j < |init| ==> init[j] == outs[j];
      InsertLastWins(init, i);
    }
  }

  /** Insertion only appends: the keys of the first `i` rows stay in place, in the same
      order, whatever rows follow. */
  lemma {:induction false} InsertKeysPrefix(outs: seq<RowOutcome>, i: nat)
    requires i <= |outs|
    ensures Insert(outs[..i]).keys <= Insert(outs).keys
    decreases |outs|
  {
    if i < |outs| {
      var init := outs[..|outs| - 1];
      assert init[..i] == outs[..i];
      InsertKeysPrefix(init, i);
    } else {
      assert outs[..i] == outs;
    }
  }

  /** A name enters the iteration order at its first kept row, right after the keys of the
      rows before it, and stays at that position. */
  lemma InsertFirstPosition(outs: seq<RowOutcome>, i: nat)
    requires i < |outs| && outs[i].Kept?
    requires forall j :: 0 <= j < i && outs[j].Kept? ==> outs[j].name != outs[i].name
    ensures |Insert(outs[..i]).keys| < |Insert(outs).keys|
    ensures Insert(outs).keys[|Insert(outs[..i]).keys|] == outs[i].name
  {
    var before := outs[..i];
    assert outs[..i + 1][..i] == before;
    if outs[i].name in Insert(before).entries {
      InsertMembership(before, outs[i].name);
      assert false;
    }
    assert Insert(outs[..i + 1]).keys == Insert(before).keys + [outs[i].name];
    InsertKeysPrefix(outs, i + 1);
  }

  // ---------------------------------------------------------------------------------------
  // Properties of the whole parse

  /** The `Map` stays empty exactly when every body row is dropped. */
  lemma ReadNothing(cols: Columns, rows: seq<seq<string>>)
    ensures Insert(Outcomes(cols, rows)).keys == [] <==>
      forall i :: 0 <= i < |rows| ==> ParseRow(cols, Clean(rows[i]), i).Skipped?
  {
    var outs := Outcomes(cols, rows);
    InsertEmpty(outs);
    assert forall i :: 0 <= i < |rows| ==> outs[i] == ParseRow(cols, Clean(rows[i]), i);
  }

  /** `parseStandings` returns null exactly when no table passes the header scan, or when
      every body row of the chosen table is dropped. */
  lemma StandingsNoneIff(doc: seq<Table>)
    ensures Standings(doc).None? <==>
      match FirstStandingsTable(doc, 0)
      case None => true
      case Some(k) => forall i :: 0 <= i < |doc[k].body| ==> ParseRow(ColumnsOf(doc[k]), Clean(doc[k].body[i]), i).Skipped?
  {
    match FirstStandingsTable(doc, 0)
    case None =>
    case Some(k) =>
      ReadNothing(ColumnsOf(doc[k]), doc[k].body);
  }
}
