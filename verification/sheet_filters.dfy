/** The filter bar of the pivot-table dashboard (script.js): one control per header
    column, a dropdown when the column has few distinct values and a search box
    otherwise, and the per-row visibility test every active control contributes to. */
module SheetFilters {
  import opened Seqs
  import opened Strings
  import opened PivotTables

  datatype FilterKind = Select | Search

  /** `{ type, value }` as the change and input handlers store it. */
  datatype ColumnFilter = ColumnFilter(kind: FilterKind, value: string)

  /** `state.filters`, keyed by column position. */
  type Filters = map<nat, ColumnFilter>

  /** A column's filter control and the label shown above it. */
  datatype Control = Dropdown(title: string, options: seq<string>) | SearchBox(title: string)

  /** More distinct values than this turn a dropdown into a search box. */
  const MaxDropdownOptions := 20

  // ---------------------------------------------------------------------------
  // Row visibility

  /** The test `applyFilters` makes for one column: an empty value lets every row
      through, a select compares the raw cell text with the option value, and a
      search looks for the typed text in the cell, ignoring case. */
  predicate Passes(cell: string, f: ColumnFilter)
  {
    if f.value == "" then true
    else if f.kind == Select then cell == f.value
    else Contains(Lower(cell), Lower(f.value))
  }

  /** A row stays visible when every active filter lets its cell through. */
  predicate RowVisible(row: Row, filters: Filters)
  {
    forall c :: c in filters ==> Passes(CellAt(row, c), filters[c])
  }

  /** `applyFilters`: the display flag of every row of every table. */
  function ApplyFilters(tables: seq<seq<Row>>, filters: Filters): (shown: seq<seq<bool>>)
    ensures |shown| == |tables|
    ensures forall t :: 0 <= t < |tables| ==> |shown[t]| == |tables[t]|
    ensures forall t, i :: 0 <= t < |tables| && 0 <= i < |tables[t]| ==>
              (shown[t][i] <==> RowVisible(tables[t][i], filters))
  {
    seq(|tables|, t requires 0 <= t < |tables| =>
      seq(|tables[t]|, i requires 0 <= i < |tables[t]| => RowVisible(tables[t][i], filters)))
  }

  /** The corrected test: a select compares the trimmed cell, the form in which
      `buildFilters` offered the value as an option. */
  predicate PassesTrimmed(cell: string, f: ColumnFilter)
  {
    if f.value == "" then true
    else if f.kind == Select then Trim(cell) == f.value
    else Contains(Lower(cell), Lower(f.value))
  }

  predicate RowVisibleTrimmed(row: Row, filters: Filters)
  {
    forall c :: c in filters ==> PassesTrimmed(CellAt(row, c), filters[c])
  }

  /** `applyFilters` with the corrected select comparison. */
  function ApplyFiltersTrimmed(tables: seq<seq<Row>>, filters: Filters): (shown: seq<seq<bool>>)
    ensures |shown| == |tables|
    ensures forall t :: 0 <= t < |tables| ==> |shown[t]| == |tables[t]|
    ensures forall t, i :: 0 <= t < |tables| && 0 <= i < |tables[t]| ==>
              (shown[t][i] <==> RowVisibleTrimmed(tables[t][i], filters))
  {
    seq(|tables|, t requires 0 <= t < |tables| =>
      seq(|tables[t]|, i requires 0 <= i < |tables[t]| => RowVisibleTrimmed(tables[t][i], filters)))
  }

  /** `resetFilters`: every filter is dropped. */
  function ResetFilters(filters: Filters): (r: Filters)
    ensures forall row :: RowVisible(row, r) && RowVisibleTrimmed(row, r)
  {
    map[]
  }

  /** After a reset every row of every table is shown. */
  lemma ResetShowsEverything(tables: seq<seq<Row>>, filters: Filters)
    ensures forall t, i :: 0 <= t < |tables| && 0 <= i < |tables[t]| ==>
              ApplyFilters(tables, ResetFilters(filters))[t][i]
  {
  }

  /** A filter with an empty value, the "All" option or a cleared search box,
      behaves as if the column had no filter. */
  lemma EmptyValuePassesAll(row: Row, filters: Filters, c: nat, kind: FilterKind)
    ensures RowVisible(row, filters[c := ColumnFilter(kind, "")]) <==> RowVisible(row, filters - {c})
  {
    var f := filters[c := ColumnFilter(kind, "")];
    if RowVisible(row, filters - {c}) {
      forall d | d in f ensures Passes(CellAt(row, d), f[d]) {
        if d != c { assert d in filters - {c}; }
      }
    }
  }

  /** Adding a filter can only hide rows. */
  lemma MoreFiltersHideMore(row: Row, filters: Filters, c: nat, f: ColumnFilter)
    ensures RowVisible(row, filters[c := f]) ==> RowVisible(row, filters - {c})
  {
    if RowVisible(row, filters[c := f]) {
      forall d | d in filters - {c} ensures Passes(CellAt(row, d), (filters - {c})[d]) {
        assert d in filters[c := f];
      }
    }
  }

  /** Filters on different columns combine with AND. */
  lemma FiltersConjoin(row: Row, f: Filters, g: Filters)
    requires f.Keys !! g.Keys
    ensures RowVisible(row, f + g) <==> RowVisible(row, f) && RowVisible(row, g)
  {
    if RowVisible(row, f + g) {
      forall c | c in f ensures Passes(CellAt(row, c), f[c]) {
        assert c !in g;
        assert c in f + g;
      }
      forall c | c in g ensures Passes(CellAt(row, c), g[c]) {
        assert c in f + g;
      }
    }
  }

  /** A select filter keeps exactly the rows whose raw cell text is the chosen value. */
  lemma SelectIsExact(cell: string, value: string)
    requires value != ""
    ensures Passes(cell, ColumnFilter(Select, value)) <==> cell == value
  {
  }

  /** The two select comparisons agree on every row whose selected cells carry no
      white space at either end; only padded cells tell them apart. */
  lemma TrimmedAgreesOnUnpaddedCells(row: Row, filters: Filters)
    requires forall c :: c in filters && filters[c].kind == Select ==> Trim(CellAt(row, c)) == CellAt(row, c)
    ensures RowVisible(row, filters) <==> RowVisibleTrimmed(row, filters)
  {
    assert forall c :: c in filters ==> (Passes(CellAt(row, c), filters[c]) <==> PassesTrimmed(CellAt(row, c), filters[c]));
  }

  /** A search filter keeps exactly the rows whose cell contains the typed text,
      ignoring the case of ASCII letters on either side. */
  lemma SearchIsCaseInsensitive(cell: string, value: string)
    requires value != ""
    ensures Passes(cell, ColumnFilter(Search, value)) <==> exists i :: OccursAt(Lower(cell), Lower(value), i)
    ensures Passes(cell, ColumnFilter(Search, value)) <==> Passes(Lower(cell), ColumnFilter(Search, Lower(value)))
  {
    ContainsIff(Lower(cell), Lower(value));
    LowerIdempotent(cell);
    LowerIdempotent(value);
  }

  // ---------------------------------------------------------------------------
  // Building the controls

  /** The trimmed cells of column `c` over the given rows (`row[c] ?? ""`). */
  function ColumnCells(rows: seq<Row>, c: nat): (cells: seq<string>)
    ensures |cells| == |rows|
    ensures forall i :: 0 <= i < |rows| ==> cells[i] == Trim(CellAt(rows[i], c))
  {
    seq(|rows|, i requires 0 <= i < |rows| => Trim(CellAt(rows[i], c)))
  }

  /** The distinct non-empty trimmed values of a column, as a set. */
  function ColumnValueSet(rows: seq<Row>, c: nat): set<string>
  {
    set i | 0 <= i < |rows| && Trim(CellAt(rows[i], c)) != "" :: Trim(CellAt(rows[i], c))
  }

  /** The options a column's dropdown would list: `Array.from(new Set(values))
      .filter(Boolean).sort()` over the trimmed cells of every table. */
  function ColumnOptions(rows: seq<Row>, c: nat): (options: seq<string>)
    ensures StrictlySorted(options)
    ensures forall v :: v in options <==> v in ColumnValueSet(rows, c)
  {
    var cells := ColumnCells(rows, c);
    var kept := Filter(cells, NonEmpty());
    assert forall v :: v in kept <==> v in ColumnValueSet(rows, c) by {
      forall v ensures v in kept <==> v in ColumnValueSet(rows, c) {
        if v in kept {
          var k :| 0 <= k < |kept| && kept[k] == v;
          var i :| 0 <= i < |cells| && cells[i] == v;
          assert Trim(CellAt(rows[i], c)) == v;
        }
        if v in ColumnValueSet(rows, c) {
          var i :| 0 <= i < |rows| && Trim(CellAt(rows[i], c)) != "" && Trim(CellAt(rows[i], c)) == v;
          assert cells[i] == v && NonEmpty()(cells[i]);
        }
      }
    }
    SortedDistinct(kept)
  }

  /** The label of a column's control: the header, or "Column n" (1-based) when the
      header cell is empty. */
  function ControlLabel(header: string, c: nat): (title: string)
    ensures title != ""
    ensures header != "" ==> title == header
    ensures header == "" ==>
              && |title| > 7 && title[..7] == "Column "
              && (forall i :: 7 <= i < |title| ==> '0' <= title[i] <= '9')
              && DigitsValue(title[7..]) == c + 1 && title[7] != '0'
  {
    if header != "" then header else "Column " + NatToString(c + 1)
  }

  /** `buildFilters(headers, tables)`: one control per header column. */
  function BuildFilters(headers: Row, tables: seq<seq<Row>>): (controls: seq<Control>)
    ensures |controls| == |headers|
    ensures forall c :: 0 <= c < |headers| ==>
              controls[c].title == ControlLabel(headers[c], c)
    ensures forall c :: 0 <= c < |headers| ==>
              (controls[c].Dropdown? <==> |ColumnOptions(Flatten(tables), c)| <= MaxDropdownOptions)
    ensures forall c :: 0 <= c < |headers| && controls[c].Dropdown? ==>
              controls[c].options == ColumnOptions(Flatten(tables), c)
  {
    var rows := Flatten(tables);
    seq(|headers|, c requires 0 <= c < |headers| =>
      var options := ColumnOptions(rows, c);
      if |options| <= MaxDropdownOptions then Dropdown(ControlLabel(headers[c], c), options)
      else SearchBox(ControlLabel(headers[c], c)))
  }

  /** A list without repeats has as many members as entries. */
  lemma {:induction false} DistinctCardinality(s: seq<string>)
    requires Distinct(s)
    ensures |set x | x in s| == |s|
  {
    if |s| > 0 {
      var t := s[1..];
      assert Distinct(t);
      DistinctCardinality(t);
      assert (set x | x in s) == (set x | x in t) + {s[0]};
      assert s[0] !in t;
    }
  }

  /** A column's option list names each of its distinct non-empty values once. */
  lemma OptionCount(rows: seq<Row>, c: nat)
    ensures |ColumnOptions(rows, c)| == |ColumnValueSet(rows, c)|
  {
    var options := ColumnOptions(rows, c);
    SortedIsDistinct(options);
    DistinctCardinality(options);
    SameMembers(options, ColumnValueSet(rows, c));
  }

  /** A list and a set with the same members: the list's set is that set. */
  lemma SameMembers(s: seq<string>, values: set<string>)
    requires forall v :: v in s <==> v in values
    ensures (set x | x in s) == values
  {
  }

  /** A column gets a dropdown exactly when it holds at most twenty distinct non-empty
      trimmed values; the options are those values, sorted, and never blank. */
  lemma DropdownIffFewValues(headers: Row, tables: seq<seq<Row>>, c: nat)
    requires c < |headers|
    ensures BuildFilters(headers, tables)[c].Dropdown? <==>
              |ColumnValueSet(Flatten(tables), c)| <= MaxDropdownOptions
    ensures BuildFilters(headers, tables)[c].Dropdown? ==>
              forall i :: 0 <= i < |BuildFilters(headers, tables)[c].options| ==>
                BuildFilters(headers, tables)[c].options[i] != ""
  {
    var rows := Flatten(tables);
    OptionCount(rows, c);
    var controls := BuildFilters(headers, tables);
    if controls[c].Dropdown? {
      var options := controls[c].options;
      forall i | 0 <= i < |options| ensures options[i] != "" {
        assert options[i] in ColumnOptions(rows, c);
      }
    }
  }

  // ---------------------------------------------------------------------------
  // Choosing a dropdown option

  /** As written, choosing a column's own option hides a row whose cell carries that
      value with white space around it: "East " offers "East" and is then hidden by it. */
  lemma PaddedCellHiddenByOwnOption()
    ensures var row := ["East "];
            && "East" in ColumnOptions([row], 0)
            && !ApplyFilters([[row]], map[0 := ColumnFilter(Select, "East")])[0][0]
  {
    var row := ["East "];
    assert Trim("East ") == "East" by {
      assert ContentStart("East ", 0) == 0;
      assert ContentEnd("East ", 5) == 4;
    }
    assert [row][0] == row;
    assert Trim(CellAt([row][0], 0)) == "East";
    assert "East" in ColumnValueSet([row], 0);
    assert !Passes(CellAt(row, 0), ColumnFilter(Select, "East"));
  }

  /** With the trimmed comparison, choosing any option a column offers keeps every row
      that carries the value visible, padded or not. */
  lemma OwnOptionKeepsRowVisible(rows: seq<Row>, c: nat, i: nat)
    requires i < |rows| && Trim(CellAt(rows[i], c)) != ""
    ensures Trim(CellAt(rows[i], c)) in ColumnOptions(rows, c)
    ensures RowVisibleTrimmed(rows[i], map[c := ColumnFilter(Select, Trim(CellAt(rows[i], c)))])
  {
    assert Trim(CellAt(rows[i], c)) in ColumnValueSet(rows, c);
  }
}
