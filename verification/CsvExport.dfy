/**
 * The claims CSV export: the cell printer, the paged stream, and a parser for section 2 of RFC 4180
 * (with LF line ends) against which both are checked.
 */
module CsvExport {
  import opened Options
  import opened Decimal
  import opened Sequences

  // ---------------------------------------------------------------------------------------------
  // Printing
  // ---------------------------------------------------------------------------------------------

  predicate FormulaTrigger(c: char) {
    c == '=' || c == '+' || c == '-' || c == '@' || c == '\t' || c == '\r'
  }

  predicate NeedsQuotes(c: char) { c == '"' || c == ',' || c == '\n' || c == '\r' }

  /** The cell text with a formula start neutralised; a missing value is the empty text. */
  function Guarded(value: Option<string>): (g: string)
    ensures g == "" || !FormulaTrigger(g[0])
  {
    var raw := if value.Some? then value.value else "";
    if raw != "" && FormulaTrigger(raw[0]) then "'" + raw else raw
  }

  function Doubled(s: string): string {
    if s == "" then "" else (if s[0] == '"' then "\"\"" else [s[0]]) + Doubled(s[1..])
  }

  predicate Plain(s: string) { forall i :: 0 <= i < |s| ==> !NeedsQuotes(s[i]) }

  function EscapeCsvCell(value: Option<string>): string {
    var g := Guarded(value);
    if Plain(g) then g else "\"" + Doubled(g) + "\""
  }

  function Joined(cells: seq<Option<string>>): string
    requires cells != []
  {
    if |cells| == 1 then EscapeCsvCell(cells[0]) else EscapeCsvCell(cells[0]) + "," + Joined(cells[1..])
  }

  function ToCsvRow(cells: seq<Option<string>>): string
    requires cells != []
  {
    Joined(cells) + "\n"
  }

  // ---------------------------------------------------------------------------------------------
  // The specification parser
  // ---------------------------------------------------------------------------------------------

  datatype Mode = CellStart | Unquoted | Quoted | AfterQuote

  /** Reads one character at a time; `None` is a malformed document. */
  function Parse(doc: string, mode: Mode, cell: string, row: seq<string>,
                 rows: seq<seq<string>>): Option<seq<seq<string>>>
    decreases |doc|
  {
    if doc == "" then
      if mode == CellStart && row == [] then Some(rows) else None
    else
      var c, rest := doc[0], doc[1..];
      match mode
      case Quoted =>
        if c == '"' then Parse(rest, AfterQuote, cell, row, rows) else Parse(rest, Quoted, cell + [c], row, rows)
      case _ =>
        if c == ',' then Parse(rest, CellStart, "", row + [cell], rows)
        else if c == '\n' then Parse(rest, CellStart, "", [], rows + [row + [cell]])
        else if c == '"' && mode == CellStart then Parse(rest, Quoted, "", row, rows)
        else if c == '"' && mode == AfterQuote then Parse(rest, Quoted, cell + [c], row, rows)
        else if c == '"' || c == '\r' || mode == AfterQuote then None
        else Parse(rest, Unquoted, cell + [c], row, rows)
  }

  function ParseDocument(doc: string): Option<seq<seq<string>>> { Parse(doc, CellStart, "", [], []) }

  /** Where the parser stands after a finished cell and its separator. */
  function AfterCell(sep: char, rest: string, cell: string, row: seq<string>,
                     rows: seq<seq<string>>): Option<seq<seq<string>>> {
    if sep == ',' then Parse(rest, CellStart, "", row + [cell], rows)
    else Parse(rest, CellStart, "", [], rows + [row + [cell]])
  }

  lemma {:induction false} PlainRun(s: string, sep: char, rest: string, mode: Mode, cell: string, row: seq<string>,
                                    rows: seq<seq<string>>)
    requires Plain(s) && (sep == ',' || sep == '\n') && (mode == CellStart || mode == Unquoted)
    ensures Parse(s + ([sep] + rest), mode, cell, row, rows) == AfterCell(sep, rest, cell + s, row, rows)
    decreases |s|
  {
    var doc := s + ([sep] + rest);
    if s == "" {
      assert doc[0] == sep && doc[1..] == rest;
      assert cell + s == cell;
    } else {
      assert doc[0] == s[0] && doc[1..] == s[1..] + ([sep] + rest);
      PlainRun(s[1..], sep, rest, Unquoted, cell + [s[0]], row, rows);
      assert cell + [s[0]] + s[1..] == cell + s;
    }
  }

  lemma {:induction false} QuotedRun(s: string, rest: string, cell: string, row: seq<string>, rows: seq<seq<string>>)
    ensures Parse(Doubled(s) + ("\"" + rest), Quoted, cell, row, rows) == Parse(rest, AfterQuote, cell + s, row, rows)
    decreases |s|
  {
    var doc := Doubled(s) + ("\"" + rest);
    if s == "" {
      assert doc[0] == '"' && doc[1..] == rest;
      assert cell + s == cell;
    } else {
      var tail := Doubled(s[1..]) + ("\"" + rest);
      QuotedRun(s[1..], rest, cell + [s[0]], row, rows);
      assert cell + [s[0]] + s[1..] == cell + s;
      if s[0] == '"' {
        assert doc[0] == '"' && doc[1] == '"' && doc[1..][1..] == tail;
        assert doc[1..][0] == '"';
      } else {
        assert doc[0] == s[0] && doc[1..] == tail;
      }
    }
  }

  /** A printed cell is read back as its guarded text. */
  lemma CellReadsBack(value: Option<string>, sep: char, rest: string, row: seq<string>, rows: seq<seq<string>>)
    requires sep == ',' || sep == '\n'
    ensures Parse(EscapeCsvCell(value) + ([sep] + rest), CellStart, "", row, rows)
         == AfterCell(sep, rest, Guarded(value), row, rows)
  {
    hide Parse, Doubled;
    var g := Guarded(value);
    assert "" + g == g;
    if Plain(g) {
      PlainRun(g, sep, rest, CellStart, "", row, rows);
    } else {
      var tail := [sep] + rest;
      assert EscapeCsvCell(value) + tail == "\"" + (Doubled(g) + ("\"" + tail));
      OpenQuote(Doubled(g) + ("\"" + tail), row, rows);
      QuotedRun(g, tail, "", row, rows);
      CloseQuote(sep, rest, g, row, rows);
    }
  }

  lemma OpenQuote(rest: string, row: seq<string>, rows: seq<seq<string>>)
    ensures Parse("\"" + rest, CellStart, "", row, rows) == Parse(rest, Quoted, "", row, rows)
  {
    assert ("\"" + rest)[0] == '"' && ("\"" + rest)[1..] == rest;
  }

  lemma CloseQuote(sep: char, rest: string, cell: string, row: seq<string>, rows: seq<seq<string>>)
    requires sep == ',' || sep == '\n'
    ensures Parse([sep] + rest, AfterQuote, cell, row, rows) == AfterCell(sep, rest, cell, row, rows)
  {
    assert ([sep] + rest)[0] == sep && ([sep] + rest)[1..] == rest;
  }

  function GuardedRow(cells: seq<Option<string>>): (r: seq<string>)
    ensures |r| == |cells|
  {
    if cells == [] then [] else [Guarded(cells[0])] + GuardedRow(cells[1..])
  }

  lemma {:induction false} RowReadsBack(cells: seq<Option<string>>, rest: string, row: seq<string>,
                                        rows: seq<seq<string>>)
    requires cells != []
    ensures Parse(ToCsvRow(cells) + rest, CellStart, "", row, rows)
         == Parse(rest, CellStart, "", [], rows + [row + GuardedRow(cells)])
    decreases |cells|
  {
    hide Parse, EscapeCsvCell, Guarded;
    RowText(cells, rest);
    if |cells| == 1 {
      CellReadsBack(cells[0], '\n', rest, row, rows);
      assert GuardedRow(cells) == [Guarded(cells[0])];
    } else {
      var tail := ToCsvRow(cells[1..]) + rest;
      CellReadsBack(cells[0], ',', tail, row, rows);
      RowReadsBack(cells[1..], rest, row + [Guarded(cells[0])], rows);
      assert row + [Guarded(cells[0])] + GuardedRow(cells[1..]) == row + GuardedRow(cells);
    }
  }

  lemma RowText(cells: seq<Option<string>>, rest: string)
    requires cells != []
    ensures |cells| == 1 ==> ToCsvRow(cells) + rest == EscapeCsvCell(cells[0]) + (['\n'] + rest)
    ensures |cells| > 1 ==> ToCsvRow(cells) + rest == EscapeCsvCell(cells[0]) + ([','] + (ToCsvRow(cells[1..]) + rest))
  {
    hide EscapeCsvCell;
  }

  // ---------------------------------------------------------------------------------------------
  // Whole documents
  // ---------------------------------------------------------------------------------------------

  function Document(table: seq<seq<Option<string>>>): string
    requires forall i :: 0 <= i < |table| ==> table[i] != []
  {
    if table == [] then "" else ToCsvRow(table[0]) + Document(table[1..])
  }

  function GuardedTable(table: seq<seq<Option<string>>>): (r: seq<seq<string>>)
    ensures |r| == |table| && forall i :: 0 <= i < |r| ==> r[i] == GuardedRow(table[i])
  {
    if table == [] then [] else [GuardedRow(table[0])] + GuardedTable(table[1..])
  }

  lemma {:induction false} RowsReadBack(table: seq<seq<Option<string>>>, rows: seq<seq<string>>)
    requires forall i :: 0 <= i < |table| ==> table[i] != []
    ensures Parse(Document(table), CellStart, "", [], rows) == Some(rows + GuardedTable(table))
    decreases |table|
  {
    if table == [] {
      assert rows + GuardedTable(table) == rows;
    } else {
      RowReadsBack(table[0], Document(table[1..]), [], rows);
      var rows' := rows + [[] + GuardedRow(table[0])];
      RowsReadBack(table[1..], rows');
      assert [] + GuardedRow(table[0]) == GuardedRow(table[0]);
      assert rows' + GuardedTable(table[1..]) == rows + GuardedTable(table);
    }
  }

  /** Any printed table parses back to its guarded cells, row by row. */
  lemma DocumentReadsBack(table: seq<seq<Option<string>>>)
    requires forall i :: 0 <= i < |table| ==> table[i] != []
    ensures ParseDocument(Document(table)) == Some(GuardedTable(table))
  {
    RowsReadBack(table, []);
    assert [] + GuardedTable(table) == GuardedTable(table);
  }

  // ---------------------------------------------------------------------------------------------
  // The stream
  // ---------------------------------------------------------------------------------------------

  const BATCH_SIZE: nat := 500

  datatype Claim = Claim(
    id: nat, policyId: string, status: string, severity: Option<string>,
    creatorAddress: string, payoutAmount: Option<string>, createdAt: string, deleted: bool)

  /** The table in primary-key order. */
  predicate Ascending(claims: seq<Claim>) { forall i, j :: 0 <= i < j < |claims| ==> claims[i].id < claims[j].id }

  function Undeleted(claims: seq<Claim>): seq<Claim> {
    if claims == [] then []
    else if claims[0].deleted then Undeleted(claims[1..])
    else [claims[0]] + Undeleted(claims[1..])
  }

  lemma {:induction false} UndeletedMembers(claims: seq<Claim>, c: Claim)
    ensures c in Undeleted(claims) <==> c in claims && !c.deleted
  {
    if claims != [] {
      UndeletedMembers(claims[1..], c);
    }
  }

  lemma {:induction false} UndeletedAscends(claims: seq<Claim>)
    requires Ascending(claims)
    ensures Ascending(Undeleted(claims))
  {
    if claims != [] {
      UndeletedAscends(claims[1..]);
      var r := Undeleted(claims[1..]);
      forall i | 0 <= i < |r| ensures claims[0].id < r[i].id {
        UndeletedMembers(claims[1..], r[i]);
        assert r[i] in r;
      }
    }
  }

  const HEADER: seq<Option<string>> :=
    [Some("id"), Some("policyId"), Some("status"), Some("severity"), Some("creatorAddress"), Some("payoutAmount"),
      Some("createdAt")]

  function Cells(c: Claim): (r: seq<Option<string>>)
    ensures |r| == 7
  {
    [Some(Digits(c.id)), Some(c.policyId), Some(c.status), c.severity, Some(c.creatorAddress), c.payoutAmount,
      Some(c.createdAt)]
  }

  function CellTable(claims: seq<Claim>): (r: seq<seq<Option<string>>>)
    ensures |r| == |claims| && forall i :: 0 <= i < |r| ==> r[i] == Cells(claims[i])
  {
    if claims == [] then [] else [Cells(claims[0])] + CellTable(claims[1..])
  }

  /** The header and one row per claim. */
  function Sheet(claims: seq<Claim>): (r: seq<seq<Option<string>>>)
    ensures forall i :: 0 <= i < |r| ==> r[i] != []
  {
    [HEADER] + CellTable(claims)
  }

  /** First position whose id is at least `id`. */
  function Position(claims: seq<Claim>, id: nat): (k: nat)
    ensures k <= |claims|
    ensures forall i :: 0 <= i < k ==> claims[i].id < id
    ensures k < |claims| ==> id <= claims[k].id
  {
    if claims == [] || id <= claims[0].id then 0 else 1 + Position(claims[1..], id)
  }

  /** The database query: rows from the cursor row on, after skipping `skip`, at most `take`. */
  function FindMany(rows: seq<Claim>, cursor: Option<nat>, skip: nat, take: nat): seq<Claim> {
    var from := if cursor.Some? then rows[Position(rows, cursor.value)..] else rows;
    var rest := if |from| <= skip then [] else from[skip..];
    if |rest| <= take then rest else rest[..take]
  }

  lemma AscendingIdsGrow(rows: seq<Claim>, i: nat)
    requires Ascending(rows) && i < |rows|
    ensures i <= rows[i].id
  {
    if i > 0 {
      AscendingIdsGrow(rows, i - 1);
    }
  }

  /** The page behind a cursor row is what follows that row. */
  lemma PageAfter(rows: seq<Claim>, done: nat)
    requires Ascending(rows) && 0 < done <= |rows|
    ensures FindMany(rows, Some(rows[done - 1].id), 1, BATCH_SIZE)
         == PageAt(rows, done, BATCH_SIZE)
  {
    var k := Position(rows, rows[done - 1].id);
    assert k == done - 1;
    assert rows[k..][1..] == rows[done..];
  }

  lemma {:induction false} DocumentConcat(a: seq<seq<Option<string>>>, b: seq<seq<Option<string>>>)
    requires forall i :: 0 <= i < |a| ==> a[i] != []
    requires forall i :: 0 <= i < |b| ==> b[i] != []
    ensures forall i :: 0 <= i < |a + b| ==> (a + b)[i] != []
    ensures Document(a + b) == Document(a) + Document(b)
  {
    hide ToCsvRow;
    if a == [] {
      assert a + b == b;
    } else {
      DocumentConcat(a[1..], b);
      assert (a + b)[1..] == a[1..] + b;
    }
  }

  lemma DocumentOfOne(row: seq<Option<string>>)
    requires row != []
    ensures Document([row]) == ToCsvRow(row)
  {
    hide ToCsvRow;
    assert Document([row]) == ToCsvRow(row) + Document([]);
  }

  lemma {:induction false} CellTableConcat(a: seq<Claim>, b: seq<Claim>)
    ensures CellTable(a + b) == CellTable(a) + CellTable(b)
  {
  }

  /** The rows of one page. */
  method PageText(batch: seq<Claim>) returns (text: string)
    ensures text == Document(CellTable(batch))
  {
    hide ToCsvRow;
    text := "";
    for i := 0 to |batch|
      invariant text == Document(CellTable(batch[..i]))
    {
      text := text + ToCsvRow(Cells(batch[i]));
      assert batch[..i + 1] == batch[..i] + [batch[i]];
      CellTableConcat(batch[..i], [batch[i]]);
      DocumentConcat(CellTable(batch[..i]), CellTable([batch[i]]));
      assert CellTable([batch[i]]) == [Cells(batch[i])];
      DocumentOfOne(Cells(batch[i]));
    }
    assert batch[..|batch|] == batch;
  }

  lemma NextPageText(rows: seq<Claim>, done: nat, batch: seq<Claim>)
    requires done + |batch| <= |rows| && batch == rows[done..done + |batch|]
    ensures Document(Sheet(rows[..done + |batch|])) == Document(Sheet(rows[..done])) + Document(CellTable(batch))
  {
    hide Document, CellTable, Cells, Sheet, ToCsvRow;
    assert rows[..done + |batch|] == rows[..done] + batch;
    SheetConcat(rows[..done], batch);
    DocumentConcat(Sheet(rows[..done]), CellTable(batch));
  }

  lemma EmptySheet(rows: seq<Claim>)
    ensures Sheet(rows[..0]) == [HEADER]
  {
    assert CellTable(rows[..0]) == [];
  }

  lemma SheetConcat(a: seq<Claim>, b: seq<Claim>)
    ensures Sheet(a + b) == Sheet(a) + CellTable(b)
  {
    hide CellTable, Cells;
    CellTableConcat(a, b);
    Associates([HEADER], CellTable(a), CellTable(b));
  }

  lemma CursorPage(rows: seq<Claim>, done: nat, cursor: Option<nat>)
    requires Ascending(rows) && done <= |rows| && (done == 0 || BATCH_SIZE <= done)
    requires cursor == if done == 0 then None else Some(rows[done - 1].id)
    ensures cursor.Some? ==> cursor.value != 0
    ensures FindMany(rows, cursor, if cursor.Some? then 1 else 0, BATCH_SIZE) == PageAt(rows, done, BATCH_SIZE)
  {
    if done > 0 {
      AscendingIdsGrow(rows, done - 1);
      PageAfter(rows, done);
    }
  }

  /**
   * Streams a fixed claims table page by page. The text is the document of the header and the
   * undeleted claims in id order, so it parses back to exactly those rows, each once; the cursor's
   * truthiness test never restarts the walk, because a full page of distinct ids ends above zero.
   */
  method StreamClaimsCsv(claims: seq<Claim>) returns (text: string)
    requires Ascending(claims)
    ensures text == Document(Sheet(Undeleted(claims)))
    ensures ParseDocument(text) == Some(GuardedTable(Sheet(Undeleted(claims))))
  {
    hide Document, ToCsvRow, CellTable, FindMany, Cells, Sheet, Ascending, GuardedTable, ParseDocument, Undeleted;
    var rows := Undeleted(claims);
    UndeletedAscends(claims);
    text := ToCsvRow(HEADER);
    DocumentOfOne(HEADER);
    EmptySheet(rows);
    var cursor: Option<nat> := None;
    ghost var done := 0;
    while true
      invariant done <= |rows| && (done == 0 || BATCH_SIZE <= done)
      invariant text == Document(Sheet(rows[..done]))
      invariant cursor == if done == 0 then None else Some(rows[done - 1].id)
      decreases |rows| - done
    {
      CursorPage(rows, done, cursor);
      var truthy := cursor.Some? && cursor.value != 0;
      var batch := FindMany(rows, if truthy then cursor else None, if truthy then 1 else 0, BATCH_SIZE);
      if batch == [] {
        break;
      }
      var page := PageText(batch);
      text := text + page;
      NextPageText(rows, done, batch);
      cursor := Some(batch[|batch| - 1].id);
      done := done + |batch|;
      if |batch| < BATCH_SIZE {
        break;
      }
    }
    assert rows[..done] == rows;
    DocumentReadsBack(Sheet(rows));
  }

  /** A missing value is empty; a formula start gets a quote in front; anything else stands as it is. */
  lemma GuardedText(value: Option<string>)
    ensures value.None? ==> Guarded(value) == ""
    ensures value.Some? && value.value != "" && value.value[0] in "=+-@\t\r" ==> Guarded(value) == "'" + value.value
    ensures value.Some? && !(value.value != "" && value.value[0] in "=+-@\t\r") ==> Guarded(value) == value.value
  {
  }

  /** A cell is put in quotes only if it holds a quote, a comma or a line break. */
  lemma QuotedIff(value: Option<string>)
    ensures var g := Guarded(value);
            EscapeCsvCell(value) == g <==> '"' !in g && ',' !in g && '\n' !in g && '\r' !in g
  {
    hide Guarded;
    var g := Guarded(value);
    DoubledGrows(g);
    if !Plain(g) {
      assert |EscapeCsvCell(value)| > |g|;
    }
  }

  lemma {:induction false} DoubledGrows(s: string)
    ensures |Doubled(s)| >= |s|
  {
    if s != "" { DoubledGrows(s[1..]); }
  }

  /** The parsed sheet, cell by cell: the header names, and under each the guarded value of that field. */
  lemma SheetCells(claims: seq<Claim>, i: nat)
    requires i < |claims|
    ensures var rows := GuardedTable(Sheet(claims));
            var c := claims[i];
            && |rows| == |claims| + 1
            && rows[0] == ["id", "policyId", "status", "severity", "creatorAddress", "payoutAmount", "createdAt"]
            && rows[i + 1] == [Digits(c.id), Guarded(Some(c.policyId)), Guarded(Some(c.status)), Guarded(c.severity),
                               Guarded(Some(c.creatorAddress)), Guarded(c.payoutAmount), Guarded(Some(c.createdAt))]
  {
    hide Digits, Guarded, GuardedTable, CellTable, GuardedRow;
    assert Sheet(claims)[0] == HEADER && Sheet(claims)[i + 1] == Cells(claims[i]);
    RowOfSeven(HEADER);
    RowOfSeven(Cells(claims[i]));
    PlainHeader();
    NumberUnguarded(claims[i].id);
  }

  lemma RowOfSeven(cells: seq<Option<string>>)
    requires |cells| == 7
    ensures GuardedRow(cells) == [Guarded(cells[0]), Guarded(cells[1]), Guarded(cells[2]), Guarded(cells[3]),
                                  Guarded(cells[4]), Guarded(cells[5]), Guarded(cells[6])]
  {
    hide Guarded;
    forall j | 0 <= j < 7 ensures GuardedRow(cells)[j] == Guarded(cells[j]) {
      CellsGuarded(cells, j);
    }
  }

  lemma PlainHeader()
    ensures forall i :: 0 <= i < 7 ==> Guarded(HEADER[i]) == HEADER[i].value
  {
  }

  lemma NumberUnguarded(n: nat)
    ensures Guarded(Some(Digits(n))) == Digits(n)
  {
    assert IsDigit(Digits(n)[0]);
  }

  /** No exported cell can start a spreadsheet formula. */
  lemma NoFormulaCells(claims: seq<Claim>, i: nat, j: nat)
    requires i < |Undeleted(claims)| && j < 7
    ensures var t := GuardedTable(CellTable(Undeleted(claims)));
            |t[i]| == 7 && (t[i][j] == "" || !FormulaTrigger(t[i][j][0]))
  {
    CellsGuarded(Cells(Undeleted(claims)[i]), j);
  }

  lemma {:induction false} CellsGuarded(cells: seq<Option<string>>, j: nat)
    requires j < |cells|
    ensures GuardedRow(cells)[j] == Guarded(cells[j])
  {
    if j > 0 {
      CellsGuarded(cells[1..], j - 1);
    }
  }
}
