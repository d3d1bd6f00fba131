/** The record-entry form (record-entry.js): choosing an input type for each column
    from its header and existing values, the dropdown suggestions, validating a
    number field, building the row appended to the sheet, and guessing the GitHub
    repository from the page address. */
module RecordEntry {
  import opened Seqs
  import opened Strings
  import opened Numbers
  import opened Outcomes
  import opened Cells

  // ---------------------------------------------------------------------------
  // Field types

  datatype FieldType = TextField | NumberField | DateField | SelectField

  /** `FORCED_NUMBER_COLUMNS`. */
  const ForcedNumberColumns: set<string> := {"Parent Level Sales", "Review Count"}

  /** `DATE_KEYWORDS`. */
  const DateKeywords: seq<string> := ["date", "month", "year", "created", "updated"]

  /** How many non-empty values `inferColumnType` looks at. */
  const SampleSize := 30

  /** More distinct values than this make a column free text rather than a select. */
  const MaxSelectValues := 8

  /** The lower-cased header contains one of the date keywords. */
  predicate HasDateKeyword(header: string)
  {
    exists k :: 0 <= k < |DateKeywords| && Contains(Lower(header), DateKeywords[k])
  }

  function IsFilled(): Value -> bool
  {
    v => v != Text("")
  }

  /** `values.filter((value) => value !== "").slice(0, 30)`: the first thirty
      non-empty values, in order (all of them when there are fewer). */
  function Sample(values: seq<Value>): (sample: seq<Value>)
    ensures |sample| == if Count(values, IsFilled()) < SampleSize then Count(values, IsFilled()) else SampleSize
    ensures IsSubsequence(sample, values)
    ensures forall i :: 0 <= i < |sample| ==> sample[i] != Text("") && sample[i] == Filter(values, IsFilled())[i]
  {
    TakePrefix(Filter(values, IsFilled()), SampleSize);
    SubsequenceTransitive(Take(Filter(values, IsFilled()), SampleSize), Filter(values, IsFilled()), values);
    Take(Filter(values, IsFilled()), SampleSize)
  }

  /** The distinct non-empty cleaned values of a sample. */
  function CleanedSet(sample: seq<Value>): set<string>
  {
    set i | 0 <= i < |sample| && CleanValue(sample[i]) != "" :: CleanValue(sample[i])
  }

  /** The decision list of `inferColumnType` once the sample is drawn. */
  function TypeOfSample(header: string, sample: seq<Value>): (t: FieldType)
    ensures header in ForcedNumberColumns ==> t == NumberField
    ensures header !in ForcedNumberColumns && HasDateKeyword(header) ==> t == DateField
    ensures t == DateField ==> HasDateKeyword(header)
    ensures t == NumberField && header !in ForcedNumberColumns ==>
              |sample| > 0 && forall i :: 0 <= i < |sample| ==> NumberIsNotNaN(sample[i])
    ensures t == SelectField ==> 0 < |CleanedSet(sample)| <= MaxSelectValues
    ensures header !in ForcedNumberColumns && !HasDateKeyword(header) && |sample| == 0 ==> t == TextField
    ensures header !in ForcedNumberColumns && !HasDateKeyword(header) && |sample| > 0 ==>
              var allNumbers := forall i :: 0 <= i < |sample| ==> NumberIsNotNaN(sample[i]);
              var few := 0 < |CleanedSet(sample)| <= MaxSelectValues;
              && (allNumbers ==> t == NumberField)
              && (!allNumbers && few ==> t == SelectField)
              && (!allNumbers && !few ==> t == TextField)
  {
    if header in ForcedNumberColumns then NumberField
    else if HasDateKeyword(header) then DateField
    else if |sample| == 0 then TextField
    else if forall i :: 0 <= i < |sample| ==> NumberIsNotNaN(sample[i]) then NumberField
    else if 0 < |CleanedSet(sample)| <= MaxSelectValues then SelectField
    else TextField
  }

  /** `inferColumnType(header, values)`: the header decides first; a column with no
      non-empty value is free text. */
  function InferColumnType(header: string, values: seq<Value>): (t: FieldType)
    ensures header in ForcedNumberColumns ==> t == NumberField
    ensures header !in ForcedNumberColumns && HasDateKeyword(header) ==> t == DateField
    ensures header !in ForcedNumberColumns && !HasDateKeyword(header) && Count(values, IsFilled()) == 0 ==>
              t == TextField
  {
    TypeOfSample(header, Sample(values))
  }

  /** Once thirty non-empty values have been seen, later values do not change the sample. */
  lemma SampleStable(values: seq<Value>, more: seq<Value>)
    requires |Filter(values, IsFilled())| >= SampleSize
    ensures Sample(values + more) == Sample(values)
  {
    FilterAppend(values, more, IsFilled());
    TakeAppend(Filter(values, IsFilled()), Filter(more, IsFilled()), SampleSize);
  }

  /** Only the first thirty non-empty values matter: anything appended after them
      leaves the inferred type unchanged. */
  lemma OnlySampleMatters(header: string, values: seq<Value>, more: seq<Value>)
    requires |Filter(values, IsFilled())| >= SampleSize
    ensures InferColumnType(header, values + more) == InferColumnType(header, values)
  {
    SampleStable(values, more);
  }

  /** A column of plain non-negative integers, such as counts, gets a number field. */
  lemma DigitColumnIsNumber(header: string, values: seq<string>)
    requires header !in ForcedNumberColumns && !HasDateKeyword(header)
    requires |values| > 0 && forall i :: 0 <= i < |values| ==> |values[i]| > 0 && AllDigits(values[i])
    ensures InferColumnType(header, seq(|values|, i requires 0 <= i < |values| => Text(values[i]))) == NumberField
  {
    var vs := seq(|values|, i requires 0 <= i < |values| => Text(values[i]));
    assert IsFilled()(vs[0]);
    var sample := Sample(vs);
    forall i | 0 <= i < |sample| ensures NumberIsNotNaN(sample[i]) {
      var filled := Filter(vs, IsFilled());
      assert sample[i] in filled;
      var j :| 0 <= j < |vs| && vs[j] == sample[i];
      DigitsParse(values[j]);
    }
  }

  /** `values.map(cleanValue)`. */
  function CleanAll(values: seq<Value>): (cleaned: seq<string>)
    ensures |cleaned| == |values|
    ensures forall i :: 0 <= i < |values| ==> cleaned[i] == CleanValue(values[i])
  {
    seq(|values|, i requires 0 <= i < |values| => CleanValue(values[i]))
  }

  /** `inferSelectOptions`: the distinct non-empty cleaned values, sorted. */
  function InferSelectOptions(values: seq<Value>): (options: seq<string>)
    ensures StrictlySorted(options)
    ensures forall v :: v in options <==> v in CleanedSet(values)
  {
    var cleaned := CleanAll(values);
    var kept := Filter(cleaned, NonEmpty());
    assert forall v :: v in kept <==> v in CleanedSet(values) by {
      forall v ensures v in kept <==> v in CleanedSet(values) {
        if v in kept {
          var k :| 0 <= k < |kept| && kept[k] == v;
          var i :| 0 <= i < |cleaned| && cleaned[i] == v;
          assert CleanValue(values[i]) == v;
        }
        if v in CleanedSet(values) {
          var i :| 0 <= i < |values| && CleanValue(values[i]) != "" && CleanValue(values[i]) == v;
          assert cleaned[i] == v && NonEmpty()(cleaned[i]);
        }
      }
    }
    SortedDistinct(kept)
  }

  /** Suggestions are already trimmed: none starts or ends with white space. */
  lemma OptionsAreTrimmed(values: seq<Value>)
    ensures forall i :: 0 <= i < |InferSelectOptions(values)| ==>
              var o := InferSelectOptions(values)[i];
              o != "" && Trim(o) == o
  {
    var options := InferSelectOptions(values);
    forall i | 0 <= i < |options| ensures options[i] != "" && Trim(options[i]) == options[i] {
      var o := options[i];
      assert o in CleanedSet(values);
      var j :| 0 <= j < |values| && CleanValue(values[j]) != "" && CleanValue(values[j]) == o;
      TrimUnpadded(o);
    }
  }

  // ---------------------------------------------------------------------------
  // Validation

  const InvalidNumber := "Please enter a valid number."

  /** `setValidationMessage`: the custom validity message of an input. */
  function ValidationMessage(input: string, fieldType: FieldType): (message: string)
    ensures message == "" || message == InvalidNumber
  {
    var value := Trim(input);
    if value == "" then ""
    else if fieldType == NumberField && !ParsesAsNumber(value) then InvalidNumber
    else ""
  }

  /** Only a number field can be invalid, and it is invalid exactly when `Number`
      rejects what was typed; blank input is always accepted. */
  lemma ValidationIff(input: string, fieldType: FieldType)
    ensures ValidationMessage(input, fieldType) != "" <==>
              fieldType == NumberField && !ParsesAsNumber(input)
    ensures IsBlank(input) ==> ValidationMessage(input, fieldType) == ""
  {
    TrimIdempotent(input);
  }

  // ---------------------------------------------------------------------------
  // Appending a row

  const SheetNotFound := "Sheet \"Sheet1\" not found."

  /** The cell written for one header: the entered value, or "" when none was given. */
  function EntryCell(rowValues: seq<Value>, i: nat): (v: Value)
    ensures v != Absent
    ensures i < |rowValues| && rowValues[i] != Absent ==> v == rowValues[i]
    ensures i >= |rowValues| || rowValues[i] == Absent ==> v == Text("")
  {
    var v := ValueAt(rowValues, i);
    if v == Absent then Text("") else v
  }

  /** `appendRowToSheet` on the sheet's grid: the header row of the sheet itself (or
      the given headers for an empty sheet) fixes how many cells the new row has. */
  function AppendRowToSheet(sheet: Option<seq<seq<Value>>>, headers: seq<Value>, rowValues: seq<Value>)
    : (r: Result<seq<seq<Value>>>)
    ensures sheet.None? <==> r == Err(SheetNotFound)
    ensures sheet.Some? ==> r.Ok? && |r.value| == |sheet.value| + 1 && r.value[..|sheet.value|] == sheet.value
    ensures sheet.Some? && r.Ok? ==>
              var row := r.value[|sheet.value|];
              && |row| == (if |sheet.value| > 0 then |sheet.value[0]| else |headers|)
              && (forall i :: 0 <= i < |row| && i < |rowValues| && rowValues[i] != Absent ==> row[i] == rowValues[i])
              && (forall i :: 0 <= i < |row| && (i >= |rowValues| || rowValues[i] == Absent) ==> row[i] == Text(""))
  {
    match sheet
    case None => Err(SheetNotFound)
    case Some(data) =>
      var safeHeaders := if |data| > 0 then data[0] else headers;
      var next := seq(|safeHeaders|, i requires 0 <= i < |safeHeaders| => EntryCell(rowValues, i));
      Ok(data + [next])
  }

  /** Appending never changes the header row, so every row appended after the
      first has the first appended row's width, and earlier rows stay put. */
  lemma AppendTwice(data: seq<seq<Value>>, headers: seq<Value>, a: seq<Value>, b: seq<Value>)
    ensures var once := AppendRowToSheet(Some(data), headers, a).value;
            var twice := AppendRowToSheet(Some(once), headers, b).value;
            && |twice| == |data| + 2
            && twice[..|data| + 1] == once
            && |twice[|data| + 1]| == |once[|data|]|
  {
    var once := AppendRowToSheet(Some(data), headers, a).value;
    if |data| > 0 {
      assert once[0] == data[0];
    }
  }

  // ---------------------------------------------------------------------------
  // Repository details

  /** `{ owner, repo, branch, path }`. */
  datatype RepoDetails = RepoDetails(owner: string, repo: string, branch: string, path: string)

  /** What local storage holds under the repository key. */
  datatype Saved = NothingSaved | SavedDetails(details: RepoDetails) | Unparsable

  const DataPath := "data/Combined.xlsx"
  const DefaultBranch := "main"
  const PagesSuffix := ".github.io"

  predicate EndsWith(s: string, t: string)
  {
    |t| <= |s| && s[|s| - |t|..] == t
  }

  /** The first position at or after `from` where `t` occurs in `s`. */
  function FindFrom(s: string, t: string, from: nat): (r: Option<nat>)
    ensures r.Some? ==> from <= r.value && OccursAt(s, t, r.value)
    ensures r.Some? ==> forall j :: from <= j < r.value ==> !OccursAt(s, t, j)
    ensures r.None? ==> forall j :: from <= j ==> !OccursAt(s, t, j)
    decreases |s| - from
  {
    if from + |t| > |s| then None
    else if OccursAt(s, t, from) then Some(from)
    else FindFrom(s, t, from + 1)
  }

  /** `s.replace(pattern, rep)` with a string pattern: only the first occurrence. */
  function ReplaceFirst(s: string, pattern: string, rep: string): (r: string)
    ensures !Contains(s, pattern) ==> r == s
    ensures Contains(s, pattern) ==>
              exists i :: && OccursAt(s, pattern, i)
                          && (forall j :: 0 <= j < i ==> !OccursAt(s, pattern, j))
                          && r == s[..i] + rep + s[i + |pattern|..]
  {
    ContainsIff(s, pattern);
    match FindFrom(s, pattern, 0)
    case None => s
    case Some(i) => s[..i] + rep + s[i + |pattern|..]
  }

  /** `s.split(c)`: the pieces between separators, empty ones included. */
  function Split(s: string, c: char): (pieces: seq<string>)
    ensures |pieces| > 0
    ensures forall k :: 0 <= k < |pieces| ==> c !in pieces[k]
  {
    var i := IndexOf(s, c);
    if i == |s| then [s] else [s[..i]] + Split(s[i + 1..], c)
  }

  /** `pieces.join(c)`. */
  function Join(pieces: seq<string>, c: char): string
    requires |pieces| > 0
  {
    if |pieces| == 1 then pieces[0] else pieces[0] + [c] + Join(pieces[1..], c)
  }

  /** Splitting loses nothing: joining the pieces gives the text back. */
  lemma {:induction false} JoinSplit(s: string, c: char)
    ensures Join(Split(s, c), c) == s
    decreases |s|
  {
    var i := IndexOf(s, c);
    if i < |s| {
      JoinSplit(s[i + 1..], c);
      assert s == s[..i] + [c] + s[i + 1..];
    }
  }

  /** `pathname.split("/").filter(Boolean)`. */
  function PathSegments(pathname: string): (segments: seq<string>)
    ensures IsSubsequence(segments, Split(pathname, '/'))
    ensures |segments| == Count(Split(pathname, '/'), NonEmpty())
    ensures forall k :: 0 <= k < |segments| ==> segments[k] != "" && '/' !in segments[k]
  {
    Filter(Split(pathname, '/'), NonEmpty())
  }

  /** `buildRepoDetails`: saved settings win; otherwise a GitHub Pages address
      `owner.github.io/repo/...` names the repository. */
  function BuildRepoDetails(saved: Saved, host: string, pathname: string): (d: RepoDetails)
    ensures saved.SavedDetails? ==> d == saved.details
    ensures !saved.SavedDetails? ==> d.branch == DefaultBranch && d.path == DataPath
    ensures !saved.SavedDetails? && !(EndsWith(host, "github.io") && |PathSegments(pathname)| > 0) ==>
              d.owner == "" && d.repo == ""
    ensures !saved.SavedDetails? && EndsWith(host, "github.io") && |PathSegments(pathname)| > 0 ==>
              d.repo == PathSegments(pathname)[0] && d.owner == ReplaceFirst(host, PagesSuffix, "")
  {
    if saved.SavedDetails? then saved.details
    else
      var parts := PathSegments(pathname);
      if EndsWith(host, "github.io") && |parts| > 0 then
        RepoDetails(ReplaceFirst(host, PagesSuffix, ""), parts[0], DefaultBranch, DataPath)
      else RepoDetails("", "", DefaultBranch, DataPath)
  }

  /** On `owner.github.io/repo/...` the owner and repository are read back, for any
      owner name without dots and any non-empty repository name without slashes. */
  lemma PagesAddressNamesRepo(owner: string, repo: string, rest: string)
    requires '.' !in owner
    requires repo != "" && '/' !in repo
    requires rest == [] || rest[0] == '/'
    ensures var d := BuildRepoDetails(NothingSaved, owner + PagesSuffix, "/" + repo + rest);
            d.owner == owner && d.repo == repo && d.branch == DefaultBranch
  {
    var host := owner + PagesSuffix;
    assert host[|host| - 9..] == "github.io";
    StripPagesSuffix(owner);
    SplitLeadingSlash(repo, rest);
  }

  /** Removing the first ".github.io" from `owner.github.io` leaves the owner. */
  lemma StripPagesSuffix(owner: string)
    requires '.' !in owner
    ensures ReplaceFirst(owner + PagesSuffix, PagesSuffix, "") == owner
  {
    var host := owner + PagesSuffix;
    assert OccursAt(host, PagesSuffix, |owner|) by {
      assert host[|owner|..|owner| + |PagesSuffix|] == PagesSuffix;
    }
    forall j | 0 <= j < |owner| ensures !OccursAt(host, PagesSuffix, j) {
      assert host[j] == owner[j] != '.';
      assert host[j..j + |PagesSuffix|][0] == host[j];
    }
    var i := FindFrom(host, PagesSuffix, 0);
    assert i.Some? && i.value == |owner|;
    assert host[..|owner|] == owner;
    assert host[|owner| + |PagesSuffix|..] == [];
  }

  /** The first piece of `s` split at `c` is everything before the first `c`. */
  lemma SplitHead(s: string, c: char)
    ensures Split(s, c)[0] == s[..IndexOf(s, c)]
    ensures IndexOf(s, c) < |s| ==> Split(s, c)[1..] == Split(s[IndexOf(s, c) + 1..], c)
  {
  }

  /** The first segment of "/repo/..." is "repo". */
  lemma SplitLeadingSlash(repo: string, rest: string)
    requires repo != "" && '/' !in repo
    requires rest == [] || rest[0] == '/'
    ensures |PathSegments("/" + repo + rest)| > 0 && PathSegments("/" + repo + rest)[0] == repo
  {
    var p := "/" + repo + rest;
    var q := repo + rest;
    assert IndexOf(p, '/') == 0;
    assert p[1..] == q;
    SplitHead(p, '/');
    var pieces := Split(p, '/');
    assert pieces[0] == "" && pieces[1..] == Split(q, '/');
    SplitHead(q, '/');
    var j := IndexOf(q, '/');
    assert j == |repo| by {
      if |rest| > 0 { assert q[|repo|] == '/'; }
    }
    assert q[..j] == repo;
    assert Split(q, '/')[0] == repo;
    assert Filter(pieces, NonEmpty()) == Filter(pieces[1..], NonEmpty());
    assert pieces[1..] == [repo] + pieces[2..];
    assert Filter(pieces[1..], NonEmpty()) == [repo] + Filter(pieces[2..], NonEmpty());
  }
}
