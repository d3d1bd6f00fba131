/** The summary table of the dashboard (app.js): rows grouped by the label of one
    column and counted, a label search, pagination, the sort-header toggle and the
    page-changing events. */
module Summary {
  import opened Seqs
  import opened Strings
  import opened Cells
  import opened Outcomes
  import opened Dataset

  // ---------------------------------------------------------------------------
  // Grouping

  /** One grouped row: its label and how many filtered rows carry that label. */
  datatype Group = Group(name: string, count: nat)

  /** `String(value ?? "Unspecified")`: a missing value is grouped as "Unspecified". */
  function GroupKey(v: Value): (key: string)
    ensures v == Absent ==> key == "Unspecified"
    ensures v != Absent ==> key == Show(v)
  {
    if v == Absent then "Unspecified" else Show(v)
  }

  function Labels(groups: seq<Group>): (labels: seq<string>)
    ensures |labels| == |groups|
    ensures forall i :: 0 <= i < |groups| ==> labels[i] == groups[i].name
  {
    seq(|groups|, i requires 0 <= i < |groups| => groups[i].name)
  }

  /** Position of the group labelled `key`, or `|groups|` (`groups.has(key)` fails). */
  function Find(groups: seq<Group>, key: string): (k: nat)
    ensures k <= |groups|
    ensures k < |groups| ==> groups[k].name == key
    ensures forall j :: 0 <= j < k ==> groups[j].name != key
  {
    if |groups| == 0 || groups[0].name == key then 0 else 1 + Find(groups[1..], key)
  }

  /** One step of the `forEach` in `buildPivotRows`: the key's group is counted up,
      or a new group with count 1 is added at the end (a `Map` keeps insertion order). */
  function Tally(groups: seq<Group>, key: string): (r: seq<Group>)
    ensures Labels(r) == if key in Labels(groups) then Labels(groups) else Labels(groups) + [key]
  {
    var k := Find(groups, key);
    if k < |groups| then groups[k := Group(key, groups[k].count + 1)] else groups + [Group(key, 1)]
  }

  /** The groups of `buildPivotRows` for the given keys, in `Map` order. */
  function GroupCounts(keys: seq<string>): (groups: seq<Group>)
    ensures Distinct(Labels(groups))
    ensures forall x :: x in Labels(groups) <==> x in keys
    decreases |keys|
  {
    if |keys| == 0 then []
    else
      var pre, key := keys[..|keys| - 1], keys[|keys| - 1];
      var g := GroupCounts(pre);
      assert keys == pre + [key];
      assert key !in Labels(g) ==> Distinct(Labels(g) + [key]) by {
        if key !in Labels(g) { DistinctSnoc(Labels(g), key); }
      }
      Tally(g, key)
  }

  /** Number of occurrences of `x` in `keys`. */
  function Occurrences(keys: seq<string>, x: string): nat
  {
    Count(keys, Is(x))
  }

  function Is(x: string): string -> bool
  {
    k => k == x
  }

  /** Each group's count is the number of occurrences of its label, so at least one. */
  predicate CountsOccurrences(groups: seq<Group>, keys: seq<string>)
  {
    forall i :: 0 <= i < |groups| ==> groups[i].count == Occurrences(keys, groups[i].name) >= 1
  }

  lemma OccurrencesSnoc(pre: seq<string>, key: string, x: string)
    ensures Occurrences(pre + [key], x) == Occurrences(pre, x) + (if key == x then 1 else 0)
  {
    CountAppend(pre, [key], Is(x));
    assert Count([key], Is(x)) == if key == x then 1 else 0;
  }

  /** Counting one more key keeps every count equal to its occurrences. */
  lemma TallyCounts(g: seq<Group>, pre: seq<string>, key: string)
    requires Distinct(Labels(g)) && CountsOccurrences(g, pre)
    requires forall x :: x in Labels(g) <==> x in pre
    ensures CountsOccurrences(Tally(g, key), pre + [key])
  {
    var r := Tally(g, key);
    var k := Find(g, key);
    forall i | 0 <= i < |r| ensures r[i].count == Occurrences(pre + [key], r[i].name) >= 1 {
      OccurrencesSnoc(pre, key, r[i].name);
      if i < |g| && i != k {
        assert r[i] == g[i];
        assert g[i].name != key by {
          if k < |g| { assert Labels(g)[i] != Labels(g)[k]; }
        }
      } else if k < |g| {
        assert i == k && r[i] == Group(key, g[k].count + 1);
      } else {
        assert i == |g| && r[i] == Group(key, 1);
        assert key !in Labels(g);
        NoOccurrences(pre, key);
      }
    }
  }

  /** Every group counts exactly the rows that carry its label, so at least one. */
  lemma {:induction false} GroupCountsCount(keys: seq<string>)
    ensures CountsOccurrences(GroupCounts(keys), keys)
    decreases |keys|
  {
    if |keys| > 0 {
      var pre, key := keys[..|keys| - 1], keys[|keys| - 1];
      assert keys == pre + [key];
      GroupCountsCount(pre);
      TallyCounts(GroupCounts(pre), pre, key);
    }
  }

  lemma {:induction false} NoOccurrences(keys: seq<string>, x: string)
    requires x !in keys
    ensures Occurrences(keys, x) == 0
  {
    if |keys| > 0 {
      NoOccurrences(keys[1..], x);
    }
  }

  /** Sum of the counts. */
  function Total(groups: seq<Group>): nat
  {
    if |groups| == 0 then 0 else Total(groups[..|groups| - 1]) + groups[|groups| - 1].count
  }

  lemma {:induction false} TotalBump(groups: seq<Group>, k: nat, g: Group)
    requires k < |groups| && g.count == groups[k].count + 1
    ensures Total(groups[k := g]) == Total(groups) + 1
    decreases |groups|
  {
    var r := groups[k := g];
    var n := |groups| - 1;
    if k < n {
      assert r[..n] == groups[..n][k := g];
      TotalBump(groups[..n], k, g);
    } else {
      assert r[..n] == groups[..n];
    }
  }

  /** The counts add up to the number of grouped rows. */
  lemma {:induction false} GroupCountsTotal(keys: seq<string>)
    ensures Total(GroupCounts(keys)) == |keys|
    decreases |keys|
  {
    if |keys| > 0 {
      var pre, key := keys[..|keys| - 1], keys[|keys| - 1];
      GroupCountsTotal(pre);
      TallyTotal(GroupCounts(pre), key);
    }
  }

  /** Counting one key adds one to the total. */
  lemma TallyTotal(g: seq<Group>, key: string)
    ensures Total(Tally(g, key)) == Total(g) + 1
  {
    var k := Find(g, key);
    if k < |g| {
      assert Tally(g, key) == g[k := Group(key, g[k].count + 1)];
      TotalBump(g, k, Group(key, g[k].count + 1));
    } else {
      assert Tally(g, key) == g + [Group(key, 1)];
      TotalSnoc(g, Group(key, 1));
    }
  }

  lemma TotalSnoc(g: seq<Group>, x: Group)
    ensures Total(g + [x]) == Total(g) + x.count
  {
    assert (g + [x])[..|g|] == g;
  }

  /** Position of the first occurrence of `x` in `keys`. */
  function FirstIndex(keys: seq<string>, x: string): (k: nat)
    requires x in keys
    ensures k < |keys| && keys[k] == x
    ensures forall j :: 0 <= j < k ==> keys[j] != x
  {
    if keys[0] == x then 0 else 1 + FirstIndex(keys[1..], x)
  }

  lemma FirstIndexAppend(pre: seq<string>, key: string, x: string)
    requires x in pre + [key]
    ensures x in pre ==> FirstIndex(pre + [key], x) == FirstIndex(pre, x)
    ensures x !in pre ==> FirstIndex(pre + [key], x) == |pre|
  {
    var keys := pre + [key];
    var k := FirstIndex(keys, x);
    if x in pre {
      var m := FirstIndex(pre, x);
      assert keys[m] == x;
      assert !(k < m);
      assert !(m < k) by { assert keys[k] == x; }
    } else {
      assert forall j :: 0 <= j < |pre| ==> keys[j] == pre[j];
    }
  }

  /** Groups appear in the order in which their labels first occur. */
  lemma {:induction false} GroupCountsFirstOccurrenceOrder(keys: seq<string>)
    ensures forall i, j :: 0 <= i < j < |GroupCounts(keys)| ==>
              FirstIndex(keys, GroupCounts(keys)[i].name) < FirstIndex(keys, GroupCounts(keys)[j].name)
    decreases |keys|
  {
    if |keys| > 0 {
      var pre, key := keys[..|keys| - 1], keys[|keys| - 1];
      assert keys == pre + [key];
      GroupCountsFirstOccurrenceOrder(pre);
      var g := GroupCounts(pre);
      var r := GroupCounts(keys);
      assert Labels(r)[..|g|] == Labels(g);
      forall i, j | 0 <= i < j < |r|
        ensures FirstIndex(keys, r[i].name) < FirstIndex(keys, r[j].name)
      {
        assert r[i].name == Labels(g)[i] && r[i].name in pre;
        FirstIndexAppend(pre, key, r[i].name);
        FirstIndexAppend(pre, key, r[j].name);
        if j < |g| {
          assert r[j].name == Labels(g)[j];
        }
      }
    }
  }

  /** `categoricalColumns[0] || state.columns[0]`: the group column is the first
      categorical column in column order, or the first column when none is. */
  function GroupColumn(columns: seq<Column>, data: seq<Record>): (col: Column)
    requires |columns| > 0
    ensures var first := FirstWhere(columns, CategoricalTest(data, DefaultMaxUnique));
            col == if first < |columns| then columns[first] else columns[0]
  {
    FilterHead(columns, CategoricalTest(data, DefaultMaxUnique));
    var categorical := CategoricalColumns(columns, data, DefaultMaxUnique);
    if |categorical| > 0 then categorical[0] else columns[0]
  }

  /** The first categorical column is the group column, whatever follows it. */
  lemma GroupColumnIsFirstCategorical(columns: seq<Column>, data: seq<Record>, k: nat)
    requires k < |columns| && IsCategorical(data, columns[k].code, DefaultMaxUnique)
    requires forall i :: 0 <= i < k ==> !IsCategorical(data, columns[i].code, DefaultMaxUnique)
    ensures GroupColumn(columns, data) == columns[k]
  {
    var test := CategoricalTest(data, DefaultMaxUnique);
    assert forall i :: 0 <= i < |columns| ==> (test(columns[i]) <==> IsCategorical(data, columns[i].code, DefaultMaxUnique));
    FirstWhereIs(columns, test, k);
  }

  /** The grouping keys of the filtered rows under the group column. */
  function Keys(rows: seq<Record>, code: string): (keys: seq<string>)
    ensures |keys| == |rows|
    ensures forall i :: 0 <= i < |rows| ==> keys[i] == GroupKey(ValueOf(rows[i], code))
  {
    seq(|rows|, i requires 0 <= i < |rows| => GroupKey(ValueOf(rows[i], code)))
  }

  /** `buildPivotRows(filteredData).rows` without the sums. */
  function BuildPivotRows(columns: seq<Column>, data: seq<Record>, filtered: seq<Record>): (groups: seq<Group>)
    requires |columns| > 0
    ensures Distinct(Labels(groups))
  {
    GroupCounts(Keys(filtered, GroupColumn(columns, data).code))
  }

  /** The grouped rows partition the filtered rows: distinct labels, each counting its
      own rows, together accounting for every filtered row, in first-occurrence order. */
  lemma PivotRowsPartition(columns: seq<Column>, data: seq<Record>, filtered: seq<Record>)
    requires |columns| > 0
    ensures var keys := Keys(filtered, GroupColumn(columns, data).code);
            var groups := BuildPivotRows(columns, data, filtered);
            && Total(groups) == |filtered|
            && CountsOccurrences(groups, keys)
            && (forall x :: x in Labels(groups) <==> x in keys)
  {
    var keys := Keys(filtered, GroupColumn(columns, data).code);
    GroupCountsTotal(keys);
    GroupCountsCount(keys);
  }

  // ---------------------------------------------------------------------------
  // Search

  function LabelContains(term: string): Group -> bool
  {
    (g: Group) => Contains(Lower(g.name), Lower(term))
  }

  /** The label search of `renderTable`: the grouped rows whose lower-cased label
      contains the lower-cased term, in their order. */
  function SearchRows(groups: seq<Group>, term: string): (r: seq<Group>)
    ensures IsSubsequence(r, groups) && |r| == Count(groups, LabelContains(term))
    ensures forall i :: 0 <= i < |r| ==> r[i] in groups && Contains(Lower(r[i].name), Lower(term))
    ensures forall i :: 0 <= i < |groups| && Contains(Lower(groups[i].name), Lower(term)) ==> groups[i] in r
  {
    Filter(groups, LabelContains(term))
  }

  /** An empty search term keeps every grouped row. */
  lemma EmptySearchKeepsAll(groups: seq<Group>)
    ensures SearchRows(groups, "") == groups
  {
    forall i | 0 <= i < |groups| ensures LabelContains("")(groups[i]) {
      ContainsEmpty(Lower(groups[i].name));
    }
    FilterAllPass(groups, LabelContains(""));
  }

  /** The search ignores the case of ASCII letters in the term. */
  lemma SearchIgnoresCase(groups: seq<Group>, term: string)
    ensures SearchRows(groups, Lower(term)) == SearchRows(groups, term)
  {
    LowerIdempotent(term);
  }

  // ---------------------------------------------------------------------------
  // Pagination

  /** `state.pageSize`. */
  const PageSize := 12

  /** `Math.max(1, Math.ceil(n / size))`. */
  function TotalPages(n: nat, size: nat): (pages: nat)
    requires size > 0
    ensures pages >= 1
    ensures n <= PageStart(pages + 1, size)
    ensures pages == 1 || PageStart(pages, size) < n
  {
    if n <= size then 1
    else
      var rest := TotalPages(n - size, size);
      PageStartShift(rest + 1, size);
      PageStartShift(rest, size);
      1 + rest
  }

  /** `(page - 1) * size`: the index of the first row of page `page`. */
  function PageStart(page: nat, size: nat): nat
    requires page >= 1
  {
    if page == 1 then 0 else PageStart(page - 1, size) + size
  }

  /** Page `p + 1` starts where page `p` would start after dropping one page of rows. */
  lemma {:induction false} PageStartShift(p: nat, size: nat)
    requires p >= 1
    ensures PageStart(p + 1, size) == PageStart(p, size) + size
  {
  }

  /** `Math.min(page, totalPages)`. */
  function ClampPage(page: nat, total: nat): (p: nat)
    ensures p <= total && p <= page
    ensures p == page || p == total
  {
    if page <= total then page else total
  }

  /** `rows.slice(start, start + size)` with `start = (page - 1) * size`. */
  function PageSlice<T>(rows: seq<T>, page: nat, size: nat): (r: seq<T>)
    requires page >= 1
    ensures |r| <= size
    ensures PageStart(page, size) >= |rows| ==> r == []
    ensures PageStart(page, size) < |rows| ==> |r| == Min(size, |rows| - PageStart(page, size))
    ensures forall i :: 0 <= i < |r| ==> r[i] == rows[PageStart(page, size) + i]
  {
    var start := Min(PageStart(page, size), |rows|);
    var end := Min(start + size, |rows|);
    rows[start..end]
  }

  function Min(a: int, b: int): int { if a <= b then a else b }

  /** Pages 1 to `k`, concatenated. */
  function FirstPages<T>(rows: seq<T>, k: nat, size: nat): seq<T>
  {
    if k == 0 then [] else FirstPages(rows, k - 1, size) + PageSlice(rows, k, size)
  }

  lemma {:induction false} FirstPagesArePrefix<T>(rows: seq<T>, k: nat, size: nat)
    ensures FirstPages(rows, k, size) == rows[..Min(PageStart(k + 1, size), |rows|)]
  {
    if k > 0 {
      FirstPagesArePrefix(rows, k - 1, size);
      var a := Min(PageStart(k, size), |rows|);
      var b := Min(PageStart(k + 1, size), |rows|);
      assert PageSlice(rows, k, size) == rows[a..b];
      assert rows[..a] + rows[a..b] == rows[..b];
    }
  }

  /** Reading every page in turn gives back all the rows, in order. */
  lemma PagesCoverRows<T>(rows: seq<T>, size: nat)
    requires size > 0
    ensures FirstPages(rows, TotalPages(|rows|, size), size) == rows
  {
    FirstPagesArePrefix(rows, TotalPages(|rows|, size), size);
  }

  // ---------------------------------------------------------------------------
  // Sorting header

  datatype Direction = Asc | Desc

  /** `state.sort`: no key until a header is first clicked. */
  datatype SortState = SortState(key: Option<string>, direction: Direction)

  function Flip(d: Direction): Direction
  {
    if d == Asc then Desc else Asc
  }

  /** A click on the header with the given key. */
  function ClickHeader(s: SortState, key: string): (r: SortState)
    ensures r.key == Some(key)
    ensures s.key == Some(key) ==> r.direction != s.direction
    ensures s.key != Some(key) ==> r.direction == Asc
  {
    if s.key == Some(key) then SortState(s.key, Flip(s.direction)) else SortState(Some(key), Asc)
  }

  /** Clicking the active header twice restores the sort; clicking a new header twice
      sorts by it in descending order. */
  lemma ClickTwice(s: SortState, key: string)
    ensures s.key == Some(key) ==> ClickHeader(ClickHeader(s, key), key) == s
    ensures s.key != Some(key) ==> ClickHeader(ClickHeader(s, key), key) == SortState(Some(key), Desc)
  {
  }

  // ---------------------------------------------------------------------------
  // View state and its events

  /** The parts of `state` the table view reacts to. */
  datatype View = View(filters: Selections, search: string, sort: SortState, page: nat)

  predicate ValidView(v: View) { v.page >= 1 }

  datatype Event =
    | ResetFilters
    | SetSearch(term: string)
    | SetSelection(code: string, selected: seq<string>)
    | PrevPage
    | NextPage
    | Loaded

  /** The state change each handler makes before it calls `render`. */
  function Step(v: View, e: Event): (r: View)
    ensures ValidView(v) ==> ValidView(r)
    ensures r.sort == v.sort
    ensures e.PrevPage? ==> r.page == if v.page > 1 then v.page - 1 else 1
    ensures e.NextPage? ==> r.page == v.page + 1
    ensures !e.PrevPage? && !e.NextPage? ==> r.page == 1
    ensures e.PrevPage? || e.NextPage? ==> r.filters == v.filters && r.search == v.search
    ensures e.ResetFilters? ==> r.filters == map[] && r.search == v.search
    ensures e.SetSearch? ==> r.filters == v.filters && r.search == e.term
    ensures e.SetSelection? ==> r.filters == v.filters[e.code := e.selected] && r.search == v.search
    ensures e.Loaded? ==> r.filters == map[] && r.search == ""
  {
    match e
    case ResetFilters => v.(filters := map[], page := 1)
    case SetSearch(term) => v.(search := term, page := 1)
    case SetSelection(code, selected) => v.(filters := v.filters[code := selected], page := 1)
    case PrevPage => v.(page := if v.page - 1 >= 1 then v.page - 1 else 1)
    case NextPage => v.(page := v.page + 1)
    case Loaded => v.(filters := map[], search := "", page := 1)
  }

  /** `render`'s page clamp for `n` display rows, and the disabled state it gives the
      previous and next buttons. */
  function Render(v: View, n: nat): (r: (View, bool, bool))
    requires ValidView(v)
    ensures ValidView(r.0) && r.0.page <= TotalPages(n, PageSize)
    ensures r.1 <==> r.0.page == 1
    ensures r.2 <==> r.0.page == TotalPages(n, PageSize)
  {
    var total := TotalPages(n, PageSize);
    var p := ClampPage(v.page, total);
    (v.(page := p), p <= 1, p >= total)
  }

  /** When the next button is enabled, pressing it shows the following page. */
  lemma NextMovesForward(v: View, n: nat)
    requires ValidView(v)
    requires !Render(v, n).2
    ensures Render(Step(Render(v, n).0, NextPage), n).0.page == Render(v, n).0.page + 1
  {
  }

  /** Pressing previous never leaves page 1 behind and undoes next. */
  lemma PrevUndoesNext(v: View)
    requires ValidView(v)
    ensures Step(Step(v, NextPage), PrevPage) == v
  {
  }

  /** After the reset button, or after a fresh load, every loaded row is shown again. */
  lemma ResetShowsAllRows(v: View, e: Event, data: seq<Record>)
    requires e.ResetFilters? || e.Loaded?
    ensures GetFilteredData(data, Step(v, e).filters) == data
  {
    EmptySelectionsKeepAll(data, Step(v, e).filters);
  }

  /** Choosing a selection on one column leaves the other columns' selections as
      they were, and clearing it lets that column pass every row. */
  lemma SelectionIsPerColumn(v: View, code: string, selected: seq<string>, other: string, row: Record)
    requires other != code
    ensures other in v.filters ==> Step(v, SetSelection(code, selected)).filters[other] == v.filters[other]
    ensures MatchesAll(row, Step(v, SetSelection(code, [])).filters) <==> MatchesAll(row, v.filters - {code})
  {
    var f := Step(v, SetSelection(code, [])).filters;
    if MatchesAll(row, v.filters - {code}) {
      forall c | c in f ensures Admits(row, c, f[c]) {
        if c != code { assert c in v.filters - {code}; }
      }
    }
    if MatchesAll(row, f) {
      forall c | c in v.filters - {code} ensures Admits(row, c, (v.filters - {code})[c]) {
        assert c in f;
      }
    }
  }
}
