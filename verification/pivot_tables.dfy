/** The pivot-block extractor of the "Sheet 2" dashboard (script.js): a worksheet
    grid is cut into tables at blank rows and at rows that repeat the first
    non-blank row, which serves as the header for every table. */
module PivotTables {
  import opened Seqs
  import opened Strings

  /** A worksheet row as `sheet_to_json(sheet, { header: 1, defval: "" })` returns
      it, each cell in its `String(cell)` form. */
  type Row = seq<string>

  /** The tables found in a grid and the header row they share. */
  datatype PivotResult = PivotResult(headers: Row, tables: seq<seq<Row>>)

  /** `row[i]` where positions past the end of the row read as blank: the script's
      `!cell` test treats `undefined` and `""` alike. */
  function CellAt(row: Row, i: nat): string
  {
    if i < |row| then row[i] else ""
  }

  /** `row.map((cell) => String(cell).trim())`. */
  function Normalize(row: Row): (r: Row)
    ensures |r| == |row|
    ensures forall i :: 0 <= i < |row| ==> r[i] == Trim(row[i])
  {
    seq(|row|, i requires 0 <= i < |row| => Trim(row[i]))
  }

  /** `isRowEmpty`: every cell is blank once trimmed. */
  predicate IsRowEmpty(row: Row)
    ensures IsRowEmpty(row) <==> forall i :: 0 <= i < |row| ==> Trim(row[i]) == ""
  {
    forall i :: 0 <= i < |row| ==> IsBlank(row[i])
  }

  /** The loop of `isHeaderRow` from position `i` on, over already trimmed rows:
      a blank template cell is skipped only when the row cell is blank too;
      any other difference rejects the row. */
  predicate MatchesFrom(trimmedRow: Row, trimmedHeaders: Row, i: nat)
    decreases |trimmedHeaders| - i
  {
    if i >= |trimmedHeaders| then true
    else if trimmedHeaders[i] == "" && CellAt(trimmedRow, i) == "" then MatchesFrom(trimmedRow, trimmedHeaders, i + 1)
    else if trimmedHeaders[i] != CellAt(trimmedRow, i) then false
    else MatchesFrom(trimmedRow, trimmedHeaders, i + 1)
  }

  lemma {:induction false} MatchesFromIff(tr: Row, th: Row, i: nat)
    ensures MatchesFrom(tr, th, i) <==> forall j :: i <= j < |th| ==> CellAt(tr, j) == th[j]
    decreases |th| - i
  {
    if i < |th| {
      MatchesFromIff(tr, th, i + 1);
    }
  }

  /** `isHeaderRow(row, headers)`: the row agrees, after trimming, with every
      position of the header template; cells past the template's end do not matter
      and a row too short to reach a position reads blank there. */
  predicate IsHeaderRow(row: Row, headers: Row)
    ensures IsHeaderRow(row, headers) <==>
              forall j :: 0 <= j < |headers| ==> Trim(CellAt(row, j)) == Trim(headers[j])
  {
    var tr := Normalize(row);
    var th := Normalize(headers);
    MatchesFromIff(tr, th, 0);
    assert forall j :: 0 <= j < |headers| ==> CellAt(tr, j) == Trim(CellAt(row, j));
    MatchesFrom(tr, th, 0)
  }

  /** A row ends the current table when it is blank or repeats the header template. */
  predicate IsSeparator(raw: Row, template: Row)
  {
    var row := Normalize(raw);
    IsRowEmpty(row) || IsHeaderRow(row, template)
  }

  /** The separator test of `extractPivotTables` for a given template. */
  function SeparatorTest(template: Row): Row -> bool
  {
    raw => IsSeparator(raw, template)
  }

  /** The rows a separator test lets into a table. */
  function Keeps(isSeparator: Row -> bool): Row -> bool
  {
    raw => !isSeparator(raw)
  }

  /** `pushTable`: the accumulated rows become a table only when there are some. */
  function Flush(current: seq<Row>): (r: seq<seq<Row>>)
    ensures |r| <= 1
    ensures forall k :: 0 <= k < |r| ==> |r[k]| > 0
    ensures Flatten(r) == current
  {
    if |current| > 0 then [current] else []
  }

  /** The `for` loop of `extractPivotTables` over the rows after the header, with
      `current` the rows accumulated so far: a separator flushes the accumulation,
      any other row joins it, and the end of the grid flushes what is left. */
  function SplitTables(rows: seq<Row>, isSeparator: Row -> bool, current: seq<Row>): (tables: seq<seq<Row>>)
    ensures forall k :: 0 <= k < |tables| ==> |tables[k]| > 0
    decreases |rows|
  {
    if |rows| == 0 then Flush(current)
    else if isSeparator(rows[0]) then Flush(current) + SplitTables(rows[1..], isSeparator, [])
    else SplitTables(rows[1..], isSeparator, current + [rows[0]])
  }

  /** `row.some((cell) => cell)` over a trimmed row. */
  predicate HasContent(row: Row)
  {
    exists i :: 0 <= i < |row| && row[i] != ""
  }

  /** Position of the first row with a non-blank cell (`findIndex`), or `|rows|`. */
  function FirstNonBlank(rows: seq<Row>): (k: nat)
    ensures k <= |rows|
    ensures forall j :: 0 <= j < k ==> IsRowEmpty(rows[j])
    ensures k < |rows| ==> !IsRowEmpty(rows[k])
  {
    if |rows| == 0 then 0
    else if HasContent(Normalize(rows[0])) then 0
    else
      assert forall i :: 0 <= i < |rows[0]| ==> Normalize(rows[0])[i] == Trim(rows[0][i]);
      assert IsRowEmpty(rows[0]);
      var k := FirstNonBlank(rows[1..]);
      assert forall j :: 1 <= j < k + 1 ==> rows[j] == rows[1..][j - 1];
      1 + k
  }

  /** `extractPivotTables(rows)`. */
  function ExtractPivotTables(rows: seq<Row>): (r: PivotResult)
    ensures FirstNonBlank(rows) == |rows| <==> r == PivotResult([], [])
    ensures forall k :: 0 <= k < |r.tables| ==> |r.tables[k]| > 0
    ensures FirstNonBlank(rows) < |rows| ==> r.headers == rows[FirstNonBlank(rows)]
    ensures FirstNonBlank(rows) < |rows| ==>
              Flatten(r.tables) == DataRows(rows[FirstNonBlank(rows) + 1..], rows[FirstNonBlank(rows)])
  {
    var k := FirstNonBlank(rows);
    if k == |rows| then PivotResult([], [])
    else
      assert |rows[k]| > 0;
      var isSeparator := SeparatorTest(Normalize(rows[k]));
      SplitTablesFlattenFresh(rows[k + 1..], isSeparator);
      PivotResult(rows[k], SplitTables(rows[k + 1..], isSeparator, []))
  }

  /** The rows of `rest` that are neither blank nor a repeat of `header`, in order. */
  function DataRows(rest: seq<Row>, header: Row): seq<Row>
  {
    Filter(rest, Keeps(SeparatorTest(Normalize(header))))
  }

  // ---------------------------------------------------------------------------
  // Properties of the extractor

  /** Trimming a row before testing it for blankness changes nothing. */
  lemma RowEmptyNormalized(row: Row)
    ensures IsRowEmpty(Normalize(row)) <==> IsRowEmpty(row)
    ensures IsRowEmpty([])
  {
    forall i | 0 <= i < |row|
      ensures IsBlank(Trim(row[i])) <==> IsBlank(row[i])
    {
      TrimIdempotent(row[i]);
    }
  }

  /** Trimming a row before matching it against the template changes nothing. */
  lemma HeaderRowNormalized(row: Row, template: Row)
    ensures IsHeaderRow(Normalize(row), template) <==> IsHeaderRow(row, template)
  {
    forall j | 0 <= j < |template|
      ensures Trim(CellAt(Normalize(row), j)) == Trim(CellAt(row, j))
    {
      NormalizedCell(row, j);
    }
  }

  lemma NormalizedCell(row: Row, j: nat)
    ensures Trim(CellAt(Normalize(row), j)) == Trim(CellAt(row, j))
  {
    TrimIdempotent(CellAt(row, j));
  }

  /** A separator is a blank row or a row that matches the template. */
  lemma SeparatorIff(raw: Row, template: Row)
    ensures IsSeparator(raw, template) <==> IsRowEmpty(raw) || IsHeaderRow(raw, template)
  {
    RowEmptyNormalized(raw);
    HeaderRowNormalized(raw, template);
  }

  /** Every row matches itself as a template. */
  lemma HeaderRowReflexive(t: Row)
    ensures IsHeaderRow(t, t)
  {
  }

  /** A blank template cell is not a wildcard: it only matches a blank cell. */
  lemma BlankTemplateCellNeedsBlankCell(row: Row, template: Row, j: nat)
    requires j < |template| && IsBlank(template[j]) && !IsBlank(CellAt(row, j))
    ensures !IsHeaderRow(row, template)
  {
  }

  /** Cells past the template's length never influence the match. */
  lemma HeaderRowIgnoresTail(row: Row, extra: Row, template: Row)
    requires |row| >= |template|
    ensures IsHeaderRow(row + extra, template) <==> IsHeaderRow(row, template)
  {
    assert forall j :: 0 <= j < |template| ==> CellAt(row + extra, j) == CellAt(row, j);
  }

  /** The concatenated tables are exactly the non-separator rows, in their original
      order, after whatever was already accumulated. */
  lemma {:induction false} SplitTablesFlatten(rows: seq<Row>, isSeparator: Row -> bool, current: seq<Row>)
    ensures Flatten(SplitTables(rows, isSeparator, current)) == current + Filter(rows, Keeps(isSeparator))
    decreases |rows|
  {
    if |rows| == 0 {
    } else if isSeparator(rows[0]) {
      SplitTablesFlatten(rows[1..], isSeparator, []);
      FlattenAppend(Flush(current), SplitTables(rows[1..], isSeparator, []));
      assert Filter(rows, Keeps(isSeparator)) == Filter(rows[1..], Keeps(isSeparator));
    } else {
      SplitTablesFlatten(rows[1..], isSeparator, current + [rows[0]]);
      assert Filter(rows, Keeps(isSeparator)) == [rows[0]] + Filter(rows[1..], Keeps(isSeparator));
    }
  }

  lemma SplitTablesFlattenFresh(rows: seq<Row>, isSeparator: Row -> bool)
    ensures Flatten(SplitTables(rows, isSeparator, [])) == Filter(rows, Keeps(isSeparator))
  {
    SplitTablesFlatten(rows, isSeparator, []);
    assert [] + Filter(rows, Keeps(isSeparator)) == Filter(rows, Keeps(isSeparator));
  }

  /** A separator cuts the grid: no table reaches across it. */
  lemma {:induction false} SeparatorSplits(a: seq<Row>, sep: Row, b: seq<Row>, isSeparator: Row -> bool, current: seq<Row>)
    requires isSeparator(sep)
    ensures SplitTables(a + [sep] + b, isSeparator, current)
            == SplitTables(a, isSeparator, current) + SplitTables(b, isSeparator, [])
    decreases |a|
  {
    var rows := a + [sep] + b;
    if |a| == 0 {
      assert rows[0] == sep && rows[1..] == b;
    } else {
      assert rows[0] == a[0] && rows[1..] == a[1..] + [sep] + b;
      if isSeparator(a[0]) {
        SeparatorSplits(a[1..], sep, b, isSeparator, []);
      } else {
        SeparatorSplits(a[1..], sep, b, isSeparator, current + [a[0]]);
      }
    }
  }

  /** A run of rows with no separator in it becomes a single table. */
  lemma {:induction false} RunIsOneTable(a: seq<Row>, isSeparator: Row -> bool, current: seq<Row>)
    requires forall j :: 0 <= j < |a| ==> !isSeparator(a[j])
    ensures SplitTables(a, isSeparator, current) == Flush(current + a)
    decreases |a|
  {
    if |a| > 0 {
      RunIsOneTable(a[1..], isSeparator, current + [a[0]]);
      assert current + [a[0]] + a[1..] == current + a;
    }
  }

  /** A grid yields no header and no table exactly when every row is blank. */
  lemma NoContentNoTables(rows: seq<Row>)
    ensures (forall j :: 0 <= j < |rows| ==> IsRowEmpty(rows[j]))
            <==> ExtractPivotTables(rows) == PivotResult([], [])
  {
    var k := FirstNonBlank(rows);
    if k < |rows| {
      assert !IsRowEmpty(rows[k]);
    }
  }

  /** A grid whose first row is not blank takes that row as its header and splits
      everything after it. */
  lemma ExtractFromFirstRow(rows: seq<Row>)
    requires |rows| > 0 && !IsRowEmpty(rows[0])
    ensures ExtractPivotTables(rows)
            == PivotResult(rows[0], SplitTables(rows[1..], SeparatorTest(Normalize(rows[0])), []))
  {
    assert FirstNonBlank(rows) == 0 by { RowEmptyNormalized(rows[0]); }
  }

  /** The header row itself and the empty row both end a table. */
  lemma HeaderAndBlankSeparate(h: Row, template: Row)
    ensures IsSeparator(h, Normalize(h)) && IsSeparator([], template)
  {
    HeaderRowReflexive(Normalize(h));
    assert IsRowEmpty(Normalize([]));
  }

  lemma SplitAtTwoSeparators(a: Row, blank: Row, h: Row, c: Row, isSeparator: Row -> bool)
    requires isSeparator(blank) && isSeparator(h) && !isSeparator(a) && !isSeparator(c)
    ensures SplitTables([a, blank, h, c], isSeparator, []) == [[a], [c]]
  {
    assert [a, blank, h, c] == [a] + [blank] + [h, c];
    SeparatorSplits([a], blank, [h, c], isSeparator, []);
    RunIsOneTable([a], isSeparator, []);
    assert [] + [a] == [a];
    assert SplitTables([a], isSeparator, []) == [[a]];
    assert [h, c] == [] + [h] + [c];
    SeparatorSplits([], h, [c], isSeparator, []);
    RunIsOneTable([c], isSeparator, []);
    assert [] + [c] == [c];
    assert SplitTables([], isSeparator, []) == [];
    assert SplitTables([h, c], isSeparator, []) == [[c]];
  }

  /** A blank row and a repeated header row each start a new table: the grid
      header, a, blank, header, c yields the two tables [a] and [c]. */
  lemma BlankAndRepeatedHeaderSplit(h: Row, a: Row, c: Row)
    requires !IsRowEmpty(h)
    requires !IsSeparator(a, Normalize(h)) && !IsSeparator(c, Normalize(h))
    ensures ExtractPivotTables([h, a, [], h, c]) == PivotResult(h, [[a], [c]])
  {
    var rows := [h, a, [], h, c];
    ExtractFromFirstRow(rows);
    HeaderAndBlankSeparate(h, Normalize(h));
    assert rows[1..] == [a, [], h, c];
    SplitAtTwoSeparators(a, [], h, c, SeparatorTest(Normalize(h)));
  }
}
