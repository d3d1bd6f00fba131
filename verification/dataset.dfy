/** The data side of the summary dashboard (app.js): projecting worksheet rows onto
    fixed column codes, multi-select filtering, and deciding which columns are
    categorical and which numeric. */
module Dataset {
  import opened Seqs
  import opened Strings
  import opened Outcomes
  import opened Cells

  /** `ALLOWED_COLUMN_INDICES`: the spreadsheet letter of each kept column and its
      zero-based position. */
  const AllowedColumnIndices: map<string, nat> :=
    map["A" := 0, "B" := 1, "C" := 2, "I" := 8, "M" := 12, "O" := 14, "R" := 17, "W" := 22, "AJ" := 35]

  /** The codes in the order `Object.entries` lists them. */
  const AllowedCodes: seq<string> := ["A", "B", "C", "I", "M", "O", "R", "W", "AJ"]

  /** A kept column: its code, its position in a row and its display name. */
  datatype Column = Column(code: string, index: nat, name: string)

  /** `{ label, value }`: one projected cell. */
  datatype Field = Field(title: string, value: Value)

  /** One row of `state.rawData`, keyed by column code. */
  type Record = map<string, Field>

  datatype Dataset = Dataset(columns: seq<Column>, records: seq<Record>)

  const SheetMissing := "Sheet1 not found in Combined.xlsx."

  /** `headers[index] || \`Column ${code}\``. */
  function ColumnName(headers: seq<Value>, code: string, index: nat): (name: string)
    ensures Truthy(ValueAt(headers, index)) ==> name == Show(ValueAt(headers, index))
    ensures !Truthy(ValueAt(headers, index)) ==> name == "Column " + code
  {
    var h := ValueAt(headers, index);
    if Truthy(h) then Show(h) else "Column " + code
  }

  /** The kept columns named from the header row. */
  function Columns(headers: seq<Value>): (columns: seq<Column>)
    ensures |columns| == |AllowedCodes|
    ensures forall j :: 0 <= j < |columns| ==>
              && columns[j].code == AllowedCodes[j]
              && columns[j].index == AllowedColumnIndices[AllowedCodes[j]]
              && columns[j].name == ColumnName(headers, AllowedCodes[j], AllowedColumnIndices[AllowedCodes[j]])
  {
    seq(|AllowedCodes|, j requires 0 <= j < |AllowedCodes| =>
      var code := AllowedCodes[j];
      var index := AllowedColumnIndices[code];
      Column(code, index, ColumnName(headers, code, index)))
  }

  /** The record built from one data row: exactly the allowed codes, each with its
      column name and the cell at its position (missing past the row's end). */
  function Project(headers: seq<Value>, row: seq<Value>): (r: Record)
    ensures r.Keys == AllowedColumnIndices.Keys
    ensures forall code :: code in r ==>
              r[code] == Field(ColumnName(headers, code, AllowedColumnIndices[code]),
                               ValueAt(row, AllowedColumnIndices[code]))
  {
    map code | code in AllowedColumnIndices ::
      Field(ColumnName(headers, code, AllowedColumnIndices[code]), ValueAt(row, AllowedColumnIndices[code]))
  }

  /** `rows[0] || []`: the header row, empty for an empty sheet. */
  function HeaderRow(rows: seq<seq<Value>>): seq<Value>
  {
    if |rows| > 0 then rows[0] else []
  }

  /** `loadData` after the workbook is read: the first row names the columns and
      every later row becomes a record. */
  function LoadData(sheet: Option<seq<seq<Value>>>): (r: Result<Dataset>)
    ensures sheet.None? <==> r == Err(SheetMissing)
    ensures sheet.Some? ==> r.Ok?
    ensures sheet.Some? && r.Ok? ==>
              && r.value.columns == Columns(HeaderRow(sheet.value))
              && |r.value.records| == (if |sheet.value| == 0 then 0 else |sheet.value| - 1)
              && forall i :: 0 <= i < |r.value.records| ==>
                   r.value.records[i] == Project(sheet.value[0], sheet.value[i + 1])
  {
    match sheet
    case None => Err(SheetMissing)
    case Some(rows) =>
      var headers := HeaderRow(rows);
      var data := if |rows| > 0 then rows[1..] else [];
      Ok(Dataset(Columns(headers), seq(|data|, i requires 0 <= i < |data| => Project(headers, data[i]))))
  }

  /** The allowed codes and positions agree with each other. */
  lemma AllowedCodesAreTheKeys()
    ensures forall code :: code in AllowedColumnIndices <==> code in AllowedCodes
    ensures Distinct(AllowedCodes)
  {
  }

  /** Record `i` carries the cell of sheet row `i + 1` under every code, and a column
      whose header cell is empty is called "Column <code>". */
  lemma LoadedRecordsFollowRows(rows: seq<seq<Value>>, i: nat, code: string)
    requires i + 1 < |rows| && code in AllowedColumnIndices
    ensures var d := LoadData(Some(rows)).value;
            && d.records[i].Keys == AllowedColumnIndices.Keys
            && d.records[i][code].value == ValueAt(rows[i + 1], AllowedColumnIndices[code])
            && (!Truthy(ValueAt(rows[0], AllowedColumnIndices[code])) ==>
                  d.records[i][code].title == "Column " + code)
  {
    var d := LoadData(Some(rows)).value;
    assert d.records[i] == Project(rows[0], rows[i + 1]);
  }

  // ---------------------------------------------------------------------------
  // Filtering

  /** The selections of the multi-select dropdowns, keyed by column code. */
  type Selections = map<string, seq<string>>

  /** `row[code]?.value`. */
  function ValueOf(row: Record, code: string): (v: Value)
    ensures code !in row ==> v == Absent
  {
    if code in row then row[code].value else Absent
  }

  /** One column's test in `getFilteredData`: an empty selection lets everything
      through; otherwise the value must be present and its string form selected. */
  predicate Admits(row: Record, code: string, selected: seq<string>)
  {
    |selected| == 0 || (ValueOf(row, code) != Absent && Show(ValueOf(row, code)) in selected)
  }

  /** Every column's test passes. */
  predicate MatchesAll(row: Record, filters: Selections)
  {
    forall code :: code in filters ==> Admits(row, code, filters[code])
  }

  function Matcher(filters: Selections): Record -> bool
  {
    row => MatchesAll(row, filters)
  }

  /** `getFilteredData`: the rows every filter admits, in their original order and
      with their multiplicity. */
  function GetFilteredData(data: seq<Record>, filters: Selections): (r: seq<Record>)
    ensures IsSubsequence(r, data) && |r| == Count(data, Matcher(filters))
    ensures forall i :: 0 <= i < |r| ==> r[i] in data && MatchesAll(r[i], filters)
    ensures forall i :: 0 <= i < |data| && MatchesAll(data[i], filters) ==> data[i] in r
  {
    Filter(data, Matcher(filters))
  }

  /** Filtering the filtered rows again changes nothing. */
  lemma FilteredIdempotent(data: seq<Record>, filters: Selections)
    ensures GetFilteredData(GetFilteredData(data, filters), filters) == GetFilteredData(data, filters)
  {
    FilterIdempotent(data, Matcher(filters));
  }

  /** With no filters, or only empty selections, every row is returned. */
  lemma EmptySelectionsKeepAll(data: seq<Record>, filters: Selections)
    requires forall code :: code in filters ==> |filters[code]| == 0
    ensures GetFilteredData(data, filters) == data
  {
    FilterAllPass(data, Matcher(filters));
  }

  /** Under a non-empty selection a missing value excludes the row and a present one
      passes exactly when its string form is selected. */
  lemma SelectionIsMembership(row: Record, filters: Selections, code: string)
    requires code in filters && |filters[code]| > 0
    ensures ValueOf(row, code) == Absent ==> !MatchesAll(row, filters)
    ensures MatchesAll(row, filters) ==> Show(ValueOf(row, code)) in filters[code]
  {
  }

  // ---------------------------------------------------------------------------
  // Column classification

  /** `state.rawData.map((row) => row[code].value)`. */
  function ColumnValues(data: seq<Record>, code: string): (all: seq<Value>)
    ensures |all| == |data|
    ensures forall i :: 0 <= i < |data| ==> all[i] == ValueOf(data[i], code)
  {
    seq(|data|, i requires 0 <= i < |data| => ValueOf(data[i], code))
  }

  function Present(): Value -> bool
  {
    v => IsPresent(v)
  }

  /** The non-empty values of a column (`!== null && !== undefined && !== ""`), in
      row order and with their multiplicity. */
  function PresentValues(data: seq<Record>, code: string): (vs: seq<Value>)
    ensures IsSubsequence(vs, ColumnValues(data, code))
    ensures |vs| == Count(ColumnValues(data, code), Present())
    ensures forall i :: 0 <= i < |vs| ==> IsPresent(vs[i])
    ensures forall i :: 0 <= i < |data| && IsPresent(ValueOf(data[i], code)) ==> ValueOf(data[i], code) in vs
  {
    var all := ColumnValues(data, code);
    assert forall i :: 0 <= i < |data| ==> all[i] == ValueOf(data[i], code);
    Filter(all, Present())
  }

  /** `toNumber(value) !== null` as a test on values. */
  function Numeric(): Value -> bool
  {
    v => ToNumberDefined(v)
  }

  /** `new Set(values.map(String)).size`. */
  function UniqueCount(vs: seq<Value>): nat
  {
    |set i | 0 <= i < |vs| :: Show(vs[i])|
  }

  /** `part / whole`, the share the source computes, as an exact fraction. */
  function Share(part: nat, whole: nat): real
    requires whole > 0
  {
    (part as real) / (whole as real)
  }

  /** A share reaches `num / den` exactly when the cross-multiplied counts do. */
  lemma ShareAtLeast(part: nat, whole: nat, num: nat, den: nat)
    requires whole > 0 && den > 0
    ensures Share(part, whole) >= Share(num, den) <==> den * part >= num * whole
  {
    var x, y := Share(part, whole), Share(num, den);
    var w, d := whole as real, den as real;
    assert x * w == part as real;
    assert y * d == num as real;
    var k := w * d;
    assert k > 0.0;
    assert x * k == (part as real) * d;
    assert y * k == (num as real) * w;
    assert x >= y <==> x * k >= y * k;
    assert (den * part) as real == d * (part as real);
    assert (num * whole) as real == (num as real) * w;
  }

  /** `getCategoricalColumns` for one column: some values, a numeric share below
      0.5, and between two and `maxUnique` distinct strings. */
  predicate IsCategorical(data: seq<Record>, code: string, maxUnique: nat)
    ensures IsCategorical(data, code, maxUnique) <==>
              var vs := PresentValues(data, code);
              && |vs| > 0
              && Share(Count(vs, Numeric()), |vs|) < 0.5
              && 1 < UniqueCount(vs) <= maxUnique
  {
    var vs := PresentValues(data, code);
    assert |vs| > 0 ==> (Share(Count(vs, Numeric()), |vs|) < 0.5 <==> 2 * Count(vs, Numeric()) < |vs|) by {
      if |vs| > 0 {
        ShareAtLeast(Count(vs, Numeric()), |vs|, 1, 2);
        assert Share(1, 2) == 0.5;
      }
    }
    && |vs| > 0
    && 2 * Count(vs, Numeric()) < |vs|
    && 1 < UniqueCount(vs) <= maxUnique
  }

  /** `getNumericColumns` for one column: some values, a numeric share of at least 0.6. */
  predicate IsNumeric(data: seq<Record>, code: string)
    ensures IsNumeric(data, code) <==>
              var vs := PresentValues(data, code);
              |vs| > 0 && Share(Count(vs, Numeric()), |vs|) >= 0.6
  {
    var vs := PresentValues(data, code);
    assert |vs| > 0 ==> (Share(Count(vs, Numeric()), |vs|) >= 0.6 <==> 5 * Count(vs, Numeric()) >= 3 * |vs|) by {
      if |vs| > 0 {
        ShareAtLeast(Count(vs, Numeric()), |vs|, 3, 5);
        assert Share(3, 5) == 0.6;
      }
    }
    |vs| > 0 && 5 * Count(vs, Numeric()) >= 3 * |vs|
  }

  /** The default bound on distinct values of a categorical column. */
  const DefaultMaxUnique := 50

  function CategoricalTest(data: seq<Record>, maxUnique: nat): Column -> bool
  {
    (col: Column) => IsCategorical(data, col.code, maxUnique)
  }

  function NumericTest(data: seq<Record>): Column -> bool
  {
    (col: Column) => IsNumeric(data, col.code)
  }

  /** `getCategoricalColumns({ maxUnique })`: the categorical columns in column order. */
  function CategoricalColumns(columns: seq<Column>, data: seq<Record>, maxUnique: nat): (r: seq<Column>)
    ensures IsSubsequence(r, columns) && |r| == Count(columns, CategoricalTest(data, maxUnique))
    ensures forall i :: 0 <= i < |r| ==> r[i] in columns && IsCategorical(data, r[i].code, maxUnique)
    ensures forall i :: 0 <= i < |columns| && IsCategorical(data, columns[i].code, maxUnique) ==> columns[i] in r
  {
    Filter(columns, CategoricalTest(data, maxUnique))
  }

  /** `getNumericColumns()`: the numeric columns in column order. */
  function NumericColumns(columns: seq<Column>, data: seq<Record>): (r: seq<Column>)
    ensures IsSubsequence(r, columns) && |r| == Count(columns, NumericTest(data))
    ensures forall i :: 0 <= i < |r| ==> r[i] in columns && IsNumeric(data, r[i].code)
    ensures forall i :: 0 <= i < |columns| && IsNumeric(data, columns[i].code) ==> columns[i] in r
  {
    Filter(columns, NumericTest(data))
  }

  /** No column is both categorical and numeric, whatever the bound on distinct values. */
  lemma NeverBoth(data: seq<Record>, code: string, maxUnique: nat)
    ensures !(IsCategorical(data, code, maxUnique) && IsNumeric(data, code))
  {
  }

  /** A column without a single non-empty value is neither categorical nor numeric. */
  lemma EmptyColumnUnclassified(data: seq<Record>, code: string, maxUnique: nat)
    requires forall i :: 0 <= i < |data| ==> !IsPresent(ValueOf(data[i], code))
    ensures !IsCategorical(data, code, maxUnique) && !IsNumeric(data, code)
  {
    var all := ColumnValues(data, code);
    assert forall i :: 0 <= i < |all| ==> !IsPresent(all[i]);
  }

  /** A column whose values are all the same string is never categorical. */
  lemma ConstantColumnNotCategorical(data: seq<Record>, code: string, maxUnique: nat, s: string)
    requires forall i :: 0 <= i < |data| ==> !IsPresent(ValueOf(data[i], code)) || Show(ValueOf(data[i], code)) == s
    ensures !IsCategorical(data, code, maxUnique)
  {
    var vs := PresentValues(data, code);
    forall i | 0 <= i < |vs| ensures Show(vs[i]) == s {
      var all := ColumnValues(data, code);
      assert vs[i] in all;
    }
    if |vs| > 0 {
      assert (set i | 0 <= i < |vs| :: Show(vs[i])) == {s} by {
        assert Show(vs[0]) == s;
      }
    }
  }
}
