/** Worksheet cells as the XLSX reader returns them with `raw: true`: missing,
    text, or a number carried by the string `String(n)` gives for it. */
module Cells {
  import opened Seqs
  import opened Strings
  import opened Numbers

  datatype Value = Absent | Text(text: string) | Num(shown: string)

  /** `row[i]`, which is `undefined` past the end of a short row. */
  function ValueAt(row: seq<Value>, i: nat): (v: Value)
    ensures i >= |row| ==> v == Absent
    ensures i < |row| ==> v == row[i]
  {
    if i < |row| then row[i] else Absent
  }

  /** `String(value)`; `String(undefined)` is "undefined". */
  function Show(v: Value): string
  {
    match v
    case Absent => "undefined"
    case Text(s) => s
    case Num(n) => n
  }

  /** JavaScript truthiness of a cell: `undefined`, `""` and the number 0 are falsy. */
  predicate Truthy(v: Value)
  {
    match v
    case Absent => false
    case Text(s) => s != ""
    case Num(n) => n != "0"
  }

  /** `value !== null && value !== undefined && value !== ""`. */
  predicate IsPresent(v: Value)
  {
    v != Absent && v != Text("")
  }

  function IsComma(): char -> bool
  {
    c => c == ','
  }

  /** `String(value).replace(/,/g, "")`: the characters other than commas, in order;
      exactly the commas are gone. */
  function RemoveCommas(s: string): (r: string)
    ensures IsSubsequence(r, s)
    ensures |r| == |s| - Count(s, IsComma())
    ensures forall i :: 0 <= i < |r| ==> r[i] != ','
    ensures (forall i :: 0 <= i < |s| ==> s[i] != ',') ==> r == s
  {
    if |s| == 0 then []
    else
      var rest := RemoveCommas(s[1..]);
      SubsequenceSkip(rest, s);
      if s[0] == ',' then rest
      else
        SubsequenceKeep(s[0], rest, s);
        [s[0]] + rest
  }

  /** `toNumber(value) !== null` in the summary dashboard: empty and missing values
      are not numbers, numbers are, and text is a number when it parses once its
      thousands separators are removed. */
  predicate ToNumberDefined(v: Value)
    ensures v == Absent || v == Text("") ==> !ToNumberDefined(v)
    ensures v.Num? ==> ToNumberDefined(v)
    ensures v.Text? && v.text != "" && (forall i :: 0 <= i < |v.text| ==> IsDigit(v.text[i])) ==> ToNumberDefined(v)
  {
    assert v.Text? && v.text != "" && (forall i :: 0 <= i < |v.text| ==> IsDigit(v.text[i])) ==>
             ParsesAsNumber(RemoveCommas(v.text)) by {
      if v.Text? && v.text != "" && forall i :: 0 <= i < |v.text| ==> IsDigit(v.text[i]) {
        DigitsParse(v.text);
      }
    }
    match v
    case Absent => false
    case Text(s) => s != "" && ParsesAsNumber(RemoveCommas(s))
    case Num(_) => true
  }

  /** `!Number.isNaN(Number(value))` in the record form (`Number(undefined)` is NaN). */
  predicate NumberIsNotNaN(v: Value)
  {
    match v
    case Absent => false
    case Text(s) => ParsesAsNumber(s)
    case Num(_) => true
  }

  /** `cleanValue`: the trimmed string form of a value, "" when it is missing. */
  function CleanValue(v: Value): (r: string)
    ensures v == Absent ==> r == ""
    ensures r == Trim(Show(v)) || v == Absent
    ensures |r| > 0 ==> !IsWhitespace(r[0]) && !IsWhitespace(r[|r| - 1])
  {
    if v == Absent then "" else Trim(Show(v))
  }

  /** Cleaning a cleaned value changes nothing. */
  lemma CleanValueIdempotent(v: Value)
    ensures CleanValue(Text(CleanValue(v))) == CleanValue(v)
  {
    if v != Absent {
      TrimIdempotent(Show(v));
    }
  }

  /** On text without thousands separators the two number tests agree, except that
      `toNumber` rejects the empty string, which `Number` reads as 0. */
  lemma NumberTestsAgree(s: string)
    requires forall i :: 0 <= i < |s| ==> s[i] != ','
    ensures ToNumberDefined(Text(s)) <==> s != "" && NumberIsNotNaN(Text(s))
  {
  }

  /** A comma-grouped amount such as "1,234" is a number to `toNumber`. */
  lemma GroupedDigitsAreNumbers(s: string)
    requires |s| > 0 && s[0] != ','
    requires forall i :: 0 <= i < |s| ==> IsDigit(s[i]) || s[i] == ','
    ensures ToNumberDefined(Text(s))
  {
    var r := RemoveCommas(s);
    DigitsHaveDigitsLeft(s);
    DigitsParse(r);
  }

  lemma {:induction false} DigitsHaveDigitsLeft(s: string)
    requires forall i :: 0 <= i < |s| ==> IsDigit(s[i]) || s[i] == ','
    ensures AllDigits(RemoveCommas(s))
    ensures |s| > 0 && s[0] != ',' ==> |RemoveCommas(s)| > 0
  {
    if |s| > 0 {
      DigitsHaveDigitsLeft(s[1..]);
    }
  }
}
