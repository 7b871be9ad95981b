/** scrape_award_novels (NovelSearch/cli.py:60-133) over an abstract page.
    A page is a sequence of tables, a table a sequence of rows, and a row the
    stripped texts of its cells together with the stripped texts of its <i>
    elements. The first row of a table is its header row. */
module Scraper {
  import opened Wrappers
  import opened Text
  import opened Integers
  import opened Novels

  datatype Row = Row(cells: seq<string>, italics: seq<string>)

  type Table = seq<Row>

  /** `year_cell.split()[0]` on a year cell with no text raises IndexError. */
  datatype Error = EmptyYearCell

  datatype Result<T> = Ok(value: T) | Failure(error: Error)

  // ---------------------------------------------------------------- header

  /** The lower-cased header texts (NovelSearch/cli.py:87). */
  function HeaderTexts(header: Row): seq<string>
  {
    seq(|header.cells|, i requires 0 <= i < |header.cells| => Lower(header.cells[i]))
  }

  /** A header row naming both "year" and "year awarded" belongs to a Retro
      Hugo table, which is skipped whole. */
  predicate IsRetroHeader(h: seq<string>)
  {
    "year" in h && "year awarded" in h
  }

  /** A header text that can head the year column. */
  predicate IsYearHeader(t: string)
  {
    Contains(t, "year") && !Contains(t, "awarded")
  }

  /** The year column: the first header that mentions "year" but not
      "awarded", if there is one. */
  function YearColumn(h: seq<string>): (r: Option<nat>)
    ensures r.Some? ==> r.value < |h| && IsYearHeader(h[r.value])
    ensures r.Some? ==> forall j :: 0 <= j < r.value ==> !IsYearHeader(h[j])
    ensures r.None? <==> forall j :: 0 <= j < |h| ==> !IsYearHeader(h[j])
  {
    if h == [] then None
    else if IsYearHeader(h[0]) then Some(0)
    else match YearColumn(h[1..])
      case None => None
      case Some(i) => Some(i + 1)
  }

  /** The search loop of NovelSearch/cli.py:92-96. */
  method FindYearColumn(h: seq<string>) returns (r: Option<nat>)
    ensures r == YearColumn(h)
  {
    r := None;
    var i := 0;
    while i < |h|
      invariant 0 <= i <= |h|
      invariant forall j :: 0 <= j < i ==> !IsYearHeader(h[j])
    {
      if IsYearHeader(h[i]) {
        r := Some(i);
        break;
      }
      i := i + 1;
    }
  }

  // ------------------------------------------------------------- body rows

  /** A row is skipped when its cell in the year column mentions "retro". */
  predicate IsRetroRow(row: Row, col: nat)
  {
    col < |row.cells| && Contains(Lower(row.cells[col]), "retro")
  }

  /** A row whose year cell exists, is not a retro cell, and has no text. */
  predicate RowFails(row: Row, col: nat)
  {
    col < |row.cells| && !IsRetroRow(row, col) && FirstToken(row.cells[col]).None?
  }

  /** The year a row's own cell gives: parse_int of its first token; 0 when
      the row has no cell there or the cell is a retro cell. */
  function ParsedYear(row: Row, col: nat): int
  {
    if col < |row.cells| && !IsRetroRow(row, col) && FirstToken(row.cells[col]).Some? then
      ParseInt(FirstToken(row.cells[col]).value)
    else 0
  }

  /** The last positive entry of ys, or 0 when there is none. */
  function LatestPositive(ys: seq<int>): (r: int)
    ensures r >= 0
  {
    if ys == [] then 0
    else if ys[|ys| - 1] > 0 then ys[|ys| - 1]
    else LatestPositive(ys[..|ys| - 1])
  }

  /** The year each row's own cell gives. */
  function CellYears(rows: seq<Row>, col: nat): (ys: seq<int>)
    ensures |ys| == |rows|
    // Element access only, stated for the solver; it adds no property.
    ensures forall j :: 0 <= j < |rows| ==> ys[j] == ParsedYear(rows[j], col)
  {
    seq(|rows|, j requires 0 <= j < |rows| => ParsedYear(rows[j], col))
  }

  /** `current_year` after the given rows: the row-span carry-forward. */
  function CarriedYear(rows: seq<Row>, col: nat): int
  {
    LatestPositive(CellYears(rows, col))
  }

  /** The records the <i> texts of one row give (NovelSearch/cli.py:121-131). */
  function TitleRecords(italics: seq<string>, award: string, year: int): seq<Novel>
  {
    if italics == [] then []
    else
      var t := italics[|italics| - 1];
      TitleRecords(italics[..|italics| - 1], award, year)
        + (if t != "" then [Novel(t, award, year, None, false)] else [])
  }

  /** The records the given body rows give, in row order. */
  function RowsRecords(rows: seq<Row>, col: nat, award: string): seq<Novel>
  {
    if rows == [] then []
    else
      var last, year := rows[|rows| - 1], CarriedYear(rows, col);
      RowsRecords(rows[..|rows| - 1], col, award)
        + (if !IsRetroRow(last, col) && year > 0 then TitleRecords(last.italics, award, year) else [])
  }

  predicate AnyRowFails(rows: seq<Row>, col: nat)
  {
    exists j | 0 <= j < |rows| :: RowFails(rows[j], col)
  }

  /** How one more row extends the carried year and the records. */
  lemma RowStep(rows: seq<Row>, i: nat, col: nat, award: string)
    requires i < |rows|
    ensures var p := rows[..i + 1];
      && CarriedYear(p, col) == (if ParsedYear(rows[i], col) > 0 then ParsedYear(rows[i], col) else CarriedYear(rows[..i], col))
      && RowsRecords(p, col, award) == RowsRecords(rows[..i], col, award)
           + (if !IsRetroRow(rows[i], col) && CarriedYear(p, col) > 0
              then TitleRecords(rows[i].italics, award, CarriedYear(p, col)) else [])
  {
    var p := rows[..i + 1];
    assert p[..i] == rows[..i] && p[i] == rows[i];
    var ys := CellYears(p, col);
    assert ys[..i] == CellYears(rows[..i], col);
    assert ys[i] == ParsedYear(rows[i], col);
  }

  /** A failing row makes the whole body fail. */
  lemma FailingRow(rows: seq<Row>, i: nat, col: nat)
    requires i < |rows| && RowFails(rows[i], col)
    ensures AnyRowFails(rows, col)
  {
  }

  /** A prefix without failing rows grows by a row that does not fail. */
  lemma NoFailingRowSnoc(rows: seq<Row>, i: nat, col: nat)
    requires i < |rows| && !AnyRowFails(rows[..i], col) && !RowFails(rows[i], col)
    ensures !AnyRowFails(rows[..i + 1], col)
  {
    var p := rows[..i + 1];
    forall j | 0 <= j < i + 1
      ensures !RowFails(p[j], col)
    {
      if j < i {
        assert p[j] == rows[..i][j];
      }
    }
  }

  /** The inner loop of NovelSearch/cli.py:122-131: one record per non-empty
      <i> text, appended in order. */
  method AppendTitles(novels: seq<Novel>, italics: seq<string>, award: string, year: int)
    returns (r: seq<Novel>)
    ensures r == novels + TitleRecords(italics, award, year)
  {
    r := novels;
    var k := 0;
    while k < |italics|
      invariant 0 <= k <= |italics|
      invariant r == novels + TitleRecords(italics[..k], award, year)
    {
      assert italics[..k + 1][..k] == italics[..k];
      var title := italics[k];
      if title != "" {
        r := r + [Novel(title, award, year, None, false)];
      }
      k := k + 1;
    }
    assert italics[..k] == italics;
  }

  /** One turn of the body loop of NovelSearch/cli.py:104-131: the year the
      row carries and the records once the row is done, or the failure of
      `split()[0]` on an empty year cell. */
  method ExtractRow(body: seq<Row>, i: nat, col: nat, award: string, currentYear: int, novels: seq<Novel>)
    returns (fails: bool, year: int, out: seq<Novel>)
    requires i < |body|
    requires currentYear == CarriedYear(body[..i], col)
    requires novels == RowsRecords(body[..i], col, award)
    ensures fails == RowFails(body[i], col)
    ensures !fails ==> year == CarriedYear(body[..i + 1], col) && out == RowsRecords(body[..i + 1], col, award)
  {
    var row := body[i];
    RowStep(body, i, col, award);
    fails, year, out := false, currentYear, novels;
    if col < |row.cells| {
      var yearCell := row.cells[col];
      if Contains(Lower(yearCell), "retro") {
        return;
      }
      var token := FirstToken(yearCell);
      if token.None? {
        fails := true;
        return;
      }
      var newYear := ParseInt(token.value);
      if newYear > 0 {
        year := newYear;
      }
    }
    if year != 0 {
      out := AppendTitles(novels, row.italics, award, year);
    }
  }

  /** The body loop of NovelSearch/cli.py:102-131. */
  method ExtractRows(body: seq<Row>, col: nat, award: string) returns (r: Result<seq<Novel>>)
    ensures r.Failure? <==> AnyRowFails(body, col)
    ensures r.Ok? ==> r.value == RowsRecords(body, col, award)
  {
    var currentYear := 0;
    var novels: seq<Novel> := [];
    var i := 0;
    while i < |body|
      invariant 0 <= i <= |body|
      invariant currentYear == CarriedYear(body[..i], col)
      invariant novels == RowsRecords(body[..i], col, award)
      invariant !AnyRowFails(body[..i], col)
    {
      var fails;
      fails, currentYear, novels := ExtractRow(body, i, col, award, currentYear, novels);
      if fails {
        FailingRow(body, i, col);
        return Failure(EmptyYearCell);
      }
      NoFailingRowSnoc(body, i, col);
      i := i + 1;
    }
    assert body[..i] == body;
    return Ok(novels);
  }

  // ---------------------------------------------------------------- tables

  /** What one table contributes, or the error it raises. */
  function TableOutcome(table: Table, award: string): Result<seq<Novel>>
  {
    if table == [] then Ok([])
    else
      var h := HeaderTexts(table[0]);
      if IsRetroHeader(h) then Ok([])
      else match YearColumn(h)
        case None => Ok([])
        case Some(col) =>
          if AnyRowFails(table[1..], col) then Failure(EmptyYearCell)
          else Ok(RowsRecords(table[1..], col, award))
  }

  /** One turn of the table loop of NovelSearch/cli.py:76-131. */
  method ExtractTable(table: Table, award: string) returns (r: Result<seq<Novel>>)
    ensures r == TableOutcome(table, award)
  {
    if |table| == 0 {
      return Ok([]);
    }
    var h := HeaderTexts(table[0]);
    if "year" in h && "year awarded" in h {
      return Ok([]);
    }
    var col := FindYearColumn(h);
    if col.None? {
      return Ok([]);
    }
    r := ExtractRows(table[1..], col.value, award);
  }

  /** What a whole page gives: the records of its tables in table order, or
      the first error raised. */
  function PageOutcome(tables: seq<Table>, award: string): Result<seq<Novel>>
  {
    if tables == [] then Ok([])
    else match TableOutcome(tables[0], award)
      case Failure(e) => Failure(e)
      case Ok(a) =>
        match PageOutcome(tables[1..], award)
        case Failure(e) => Failure(e)
        case Ok(b) => Ok(a + b)
  }

  function Prepend(a: seq<Novel>, r: Result<seq<Novel>>): Result<seq<Novel>>
  {
    match r
    case Failure(e) => Failure(e)
    case Ok(b) => Ok(a + b)
  }

  lemma PrependEmpty(r: Result<seq<Novel>>)
    ensures Prepend([], r) == r
  {
    if r.Ok? { assert [] + r.value == r.value; }
  }

  lemma PrependTwice(a: seq<Novel>, b: seq<Novel>, r: Result<seq<Novel>>)
    ensures Prepend(a, Prepend(b, r)) == Prepend(a + b, r)
  {
    if r.Ok? { assert a + (b + r.value) == (a + b) + r.value; }
  }

  /** scrape_award_novels (NovelSearch/cli.py:60-133) after the download. */
  method ScrapeAwardNovels(tables: seq<Table>, award: string) returns (r: Result<seq<Novel>>)
    ensures r == PageOutcome(tables, award)
  {
    var novels: seq<Novel> := [];
    var i := 0;
    assert tables[i..] == tables;
    PrependEmpty(PageOutcome(tables, award));
    while i < |tables|
      invariant 0 <= i <= |tables|
      invariant PageOutcome(tables, award) == Prepend(novels, PageOutcome(tables[i..], award))
    {
      assert tables[i..][0] == tables[i] && tables[i..][1..] == tables[i + 1..];
      var t := ExtractTable(tables[i], award);
      if t.Failure? {
        return Failure(t.error);
      }
      PrependTwice(novels, t.value, PageOutcome(tables[i + 1..], award));
      novels := novels + t.value;
      i := i + 1;
    }
    assert PageOutcome(tables[i..], award) == Ok([]);
    assert novels + [] == novels;
    return Ok(novels);
  }

  // ------------------------------------------------------------ properties

  /** What every scraped record looks like. */
  predicate WellFormed(n: Novel, award: string)
  {
    n.title != "" && n.award == award && n.year > 0 && n.pov == None && !n.read
  }

  lemma {:induction false} TitleRecordsWellFormed(italics: seq<string>, award: string, year: int)
    requires year > 0
    ensures forall n :: n in TitleRecords(italics, award, year) ==> WellFormed(n, award) && n.year == year && n.title in italics
  {
    if italics != [] {
      TitleRecordsWellFormed(italics[..|italics| - 1], award, year);
    }
  }

  /** Every record of a table: non-empty title from an <i> text, the given
      award, a positive year, no POV and not read. */
  lemma {:induction false} RowsRecordsWellFormed(rows: seq<Row>, col: nat, award: string)
    ensures forall n :: n in RowsRecords(rows, col, award) ==> WellFormed(n, award)
  {
    if rows != [] {
      RowsRecordsWellFormed(rows[..|rows| - 1], col, award);
      var year := CarriedYear(rows, col);
      if year > 0 {
        TitleRecordsWellFormed(rows[|rows| - 1].italics, award, year);
      }
    }
  }

  /** The latest positive value is one of the values, no later value is
      positive, and it is 0 exactly when no value is positive. */
  lemma {:induction false} LatestPositiveIsLatest(ys: seq<int>)
    ensures LatestPositive(ys) > 0 ==>
      exists j :: 0 <= j < |ys| && ys[j] == LatestPositive(ys) && forall k :: j < k < |ys| ==> ys[k] <= 0
    ensures LatestPositive(ys) == 0 <==> forall j :: 0 <= j < |ys| ==> ys[j] <= 0
  {
    if ys != [] {
      var init := ys[..|ys| - 1];
      LatestPositiveIsLatest(init);
      if ys[|ys| - 1] <= 0 && LatestPositive(init) > 0 {
        var j :| 0 <= j < |init| && init[j] == LatestPositive(init) && forall k :: j < k < |init| ==> init[k] <= 0;
        assert ys[j] == LatestPositive(ys);
      }
      if forall j :: 0 <= j < |ys| ==> ys[j] <= 0 {
        assert forall j :: 0 <= j < |init| ==> init[j] == ys[j];
      }
    }
  }

  /** The carried year is the latest positive year a row's own cell gave, and
      0 while no row has given one. */
  lemma CarriedYearIsLatest(rows: seq<Row>, col: nat)
    ensures CarriedYear(rows, col) >= 0
    ensures CarriedYear(rows, col) > 0 ==>
      exists j :: 0 <= j < |rows| && ParsedYear(rows[j], col) == CarriedYear(rows, col)
                  && forall k :: j < k < |rows| ==> ParsedYear(rows[k], col) <= 0
    ensures CarriedYear(rows, col) == 0 <==> forall j :: 0 <= j < |rows| ==> ParsedYear(rows[j], col) <= 0
  {
    var ys := CellYears(rows, col);
    var y := CarriedYear(rows, col);
    assert y == LatestPositive(ys);
    LatestPositiveIsLatest(ys);
    if y > 0 {
      var j :| 0 <= j < |ys| && ys[j] == y && forall k :: j < k < |ys| ==> ys[k] <= 0;
      assert ParsedYear(rows[j], col) == y;
      forall k | j < k < |rows|
        ensures ParsedYear(rows[k], col) <= 0
      {
        assert ys[k] <= 0;
      }
    } else {
      forall j | 0 <= j < |rows|
        ensures ParsedYear(rows[j], col) <= 0
      {
        assert ys[j] <= 0;
      }
    }
  }

  /** A record that the rows before the last do not give comes from the last row. */
  lemma RowsRecordsLast(rows: seq<Row>, col: nat, award: string, n: Novel)
    requires rows != [] && n in RowsRecords(rows, col, award) && n !in RowsRecords(rows[..|rows| - 1], col, award)
    ensures !IsRetroRow(rows[|rows| - 1], col) && CarriedYear(rows, col) > 0
    ensures n in TitleRecords(rows[|rows| - 1].italics, award, CarriedYear(rows, col))
  {
  }

  /** Each record comes from a non-retro row whose <i> texts hold its title
      and whose carried year is its year. */
  lemma {:induction false} RecordOrigin(rows: seq<Row>, col: nat, award: string, n: Novel)
    requires n in RowsRecords(rows, col, award)
    ensures exists j :: 0 <= j < |rows| && !IsRetroRow(rows[j], col) && n.title in rows[j].italics
                     && n.year == CarriedYear(rows[..j + 1], col)
  {
    var last := |rows| - 1;
    var init := rows[..last];
    if n in RowsRecords(init, col, award) {
      RecordOrigin(init, col, award, n);
      var j :| 0 <= j < |init| && !IsRetroRow(init[j], col) && n.title in init[j].italics
        && n.year == CarriedYear(init[..j + 1], col);
      assert init[..j + 1] == rows[..j + 1] && init[j] == rows[j];
    } else {
      RowsRecordsLast(rows, col, award, n);
      var year := CarriedYear(rows, col);
      TitleRecordsWellFormed(rows[last].italics, award, year);
      assert rows[..last + 1] == rows;
      assert n.title in rows[last].italics && n.year == year;
    }
  }

  lemma {:induction false} TitleRecordsComplete(italics: seq<string>, award: string, year: int, t: string)
    requires t in italics && t != ""
    ensures Novel(t, award, year, None, false) in TitleRecords(italics, award, year)
  {
    if italics[|italics| - 1] != t {
      assert t in italics[..|italics| - 1] by {
        var k :| 0 <= k < |italics| && italics[k] == t;
        assert italics[..|italics| - 1][k] == t;
      }
      TitleRecordsComplete(italics[..|italics| - 1], award, year, t);
    }
  }

  /** RowsRecords of a prefix of the rows is a prefix of RowsRecords: the
      records are appended in row order. */
  lemma {:induction false} RowsRecordsPrefix(rows: seq<Row>, col: nat, award: string, i: nat)
    requires i <= |rows|
    ensures RowsRecords(rows[..i], col, award) <= RowsRecords(rows, col, award)
  {
    if i < |rows| {
      var init := rows[..|rows| - 1];
      assert init[..i] == rows[..i];
      RowsRecordsPrefix(init, col, award, i);
    } else {
      assert rows[..i] == rows;
    }
  }

  /** The records of a non-retro row with a carried year follow those of the rows before it. */
  lemma RowOwnRecords(rows: seq<Row>, col: nat, award: string, j: nat)
    requires j < |rows| && !IsRetroRow(rows[j], col) && CarriedYear(rows[..j + 1], col) > 0
    ensures RowsRecords(rows[..j + 1], col, award)
         == RowsRecords(rows[..j], col, award) + TitleRecords(rows[j].italics, award, CarriedYear(rows[..j + 1], col))
  {
    var p := rows[..j + 1];
    assert p[..j] == rows[..j] && p[j] == rows[j];
  }

  /** Conversely, every non-empty <i> text of a non-retro row that has a
      carried year yields a record with that title and year. */
  lemma RecordComplete(rows: seq<Row>, col: nat, award: string, j: nat, t: string)
    requires j < |rows| && !IsRetroRow(rows[j], col) && CarriedYear(rows[..j + 1], col) > 0
    requires t in rows[j].italics && t != ""
    ensures Novel(t, award, CarriedYear(rows[..j + 1], col), None, false) in RowsRecords(rows, col, award)
  {
    var year := CarriedYear(rows[..j + 1], col);
    var rec := Novel(t, award, year, None, false);
    var mine, all := RowsRecords(rows[..j + 1], col, award), RowsRecords(rows, col, award);
    assert rec in mine by {
      TitleRecordsComplete(rows[j].italics, award, year, t);
      RowOwnRecords(rows, col, award, j);
    }
    assert mine <= all by {
      RowsRecordsPrefix(rows, col, award, j + 1);
    }
    var k :| 0 <= k < |mine| && mine[k] == rec;
    assert all[k] == rec;
  }

  /** A table without rows, a Retro Hugo table, and a table without a year
      column contribute nothing; every other table contributes the records
      of its body rows, or fails when one of them fails. */
  lemma TableOutcomeCases(table: Table, award: string)
    ensures table == [] ==> TableOutcome(table, award) == Ok([])
    ensures table != [] && IsRetroHeader(HeaderTexts(table[0])) ==> TableOutcome(table, award) == Ok([])
    ensures table != [] && (forall j :: 0 <= j < |table[0].cells| ==> !IsYearHeader(Lower(table[0].cells[j])))
      ==> TableOutcome(table, award) == Ok([])
    ensures table != [] && !IsRetroHeader(HeaderTexts(table[0])) && YearColumn(HeaderTexts(table[0])).Some? ==>
      var col := YearColumn(HeaderTexts(table[0])).value;
      TableOutcome(table, award) == if AnyRowFails(table[1..], col) then Failure(EmptyYearCell)
                                    else Ok(RowsRecords(table[1..], col, award))
  {
    if table != [] {
      var h := HeaderTexts(table[0]);
      if forall j :: 0 <= j < |table[0].cells| ==> !IsYearHeader(Lower(table[0].cells[j])) {
        assert forall j :: 0 <= j < |h| ==> !IsYearHeader(h[j]);
      }
    }
  }

  /** Every record a whole page gives is well formed. */
  lemma {:induction false} PageOutcomeWellFormed(tables: seq<Table>, award: string)
    requires PageOutcome(tables, award).Ok?
    ensures forall n :: n in PageOutcome(tables, award).value ==> WellFormed(n, award)
  {
    if tables != [] {
      PageOutcomeWellFormed(tables[1..], award);
      var t := tables[0];
      if t != [] {
        var h := HeaderTexts(t[0]);
        if !IsRetroHeader(h) && YearColumn(h).Some? {
          RowsRecordsWellFormed(t[1..], YearColumn(h).value, award);
        }
      }
    }
  }
}
