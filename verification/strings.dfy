/** The string primitives the dashboard scripts lean on: `String.prototype.trim`,
    `toLowerCase`, `includes`, an order on strings standing in for the default
    `Array.prototype.sort` order,
    and `Array.from(new Set(xs)).sort()` as a canonical sorted list of distinct values. */
module Strings {
  import opened Seqs

  /** White space and line terminators as `String.prototype.trim` removes them
      (sections 12.2 and 12.3 of ECMA-262: TAB, VT, FF, SP, NBSP, ZWNBSP, the
      space separators of category Zs, LF, CR, LS and PS). */
  predicate IsWhitespace(c: char)
  {
    || c == ' ' || c == '\t' || c == '\n' || c == '\r'
    || c == '\U{B}' || c == '\U{C}' || c == '\U{A0}' || c == '\U{FEFF}'
    || c == '\U{1680}' || ('\U{2000}' <= c <= '\U{200A}')
    || c == '\U{2028}' || c == '\U{2029}' || c == '\U{202F}' || c == '\U{205F}' || c == '\U{3000}'
  }

  /** Position of the first non-white character at or after `i`, or `|s|`. */
  function ContentStart(s: string, i: nat): (k: nat)
    requires i <= |s|
    ensures i <= k <= |s|
    ensures forall j :: i <= j < k ==> IsWhitespace(s[j])
    ensures k < |s| ==> !IsWhitespace(s[k])
    decreases |s| - i
  {
    if i == |s| || !IsWhitespace(s[i]) then i else ContentStart(s, i + 1)
  }

  /** One past the last non-white character before `e`, or 0. */
  function ContentEnd(s: string, e: nat): (k: nat)
    requires e <= |s|
    ensures k <= e
    ensures forall j :: k <= j < e ==> IsWhitespace(s[j])
    ensures k > 0 ==> !IsWhitespace(s[k - 1])
  {
    if e == 0 || !IsWhitespace(s[e - 1]) then e else ContentEnd(s, e - 1)
  }

  /** `r` sits in `s` at offset `a` with nothing but white space around it. */
  predicate TrimmedAt(s: string, r: string, a: int)
  {
    && 0 <= a <= |s| - |r|
    && r == s[a..a + |r|]
    && (forall i :: 0 <= i < a ==> IsWhitespace(s[i]))
    && (forall i :: a + |r| <= i < |s| ==> IsWhitespace(s[i]))
  }

  /** `s.trim()`: `s` without the white space at either end. */
  function Trim(s: string): (r: string)
    ensures |r| <= |s|
    ensures |r| > 0 ==> !IsWhitespace(r[0]) && !IsWhitespace(r[|r| - 1])
    ensures r == [] <==> IsBlank(s)
  {
    var a := ContentStart(s, 0);
    var b := ContentEnd(s, |s|);
    if b <= a then [] else s[a..b]
  }

  /** A string with no white space at either end is its own trim. */
  lemma TrimUnpadded(s: string)
    requires |s| > 0 ==> !IsWhitespace(s[0]) && !IsWhitespace(s[|s| - 1])
    ensures Trim(s) == s
  {
  }

  /** What `Trim` keeps is an infix of its input with only white space around it. */
  lemma TrimIsInfix(s: string)
    ensures exists a :: TrimmedAt(s, Trim(s), a)
  {
    var a := ContentStart(s, 0);
    var b := ContentEnd(s, |s|);
    if b <= a {
      assert TrimmedAt(s, Trim(s), 0);
    } else {
      assert TrimmedAt(s, Trim(s), a);
    }
  }

  /** A string made of white space only: falsy after `String(x).trim()` (see `Trim`). */
  predicate IsBlank(s: string)
  {
    forall i :: 0 <= i < |s| ==> IsWhitespace(s[i])
  }

  /** Trimming an already trimmed string changes nothing. */
  lemma TrimIdempotent(s: string)
    ensures Trim(Trim(s)) == Trim(s)
  {
    TrimUnpadded(Trim(s));
  }

  /** JavaScript truthiness of a string, as `.filter(Boolean)` applies it. */
  function NonEmpty(): string -> bool
  {
    s => s != ""
  }

  /** `toLowerCase` on the ASCII letters. */
  function LowerChar(c: char): char
  {
    if 'A' <= c <= 'Z' then (c as int + 32) as char else c
  }

  /** `s.toLowerCase()`, character by character. */
  function Lower(s: string): (r: string)
    ensures |r| == |s|
    ensures forall i :: 0 <= i < |s| ==> r[i] == LowerChar(s[i])
  {
    seq(|s|, i requires 0 <= i < |s| => LowerChar(s[i]))
  }

  /** Lower-casing twice is lower-casing once. */
  lemma LowerIdempotent(s: string)
    ensures Lower(Lower(s)) == Lower(s)
  {
  }

  /** `t` occurs in `s` starting at position `i`. */
  predicate OccursAt(s: string, t: string, i: int)
  {
    0 <= i <= |s| - |t| && s[i..i + |t|] == t
  }

  /** `s.includes(t)`: `t` occurs in `s` as a contiguous substring. */
  predicate Contains(s: string, t: string)
  {
    if |t| > |s| then false
    else if s[..|t|] == t then true
    else |s| > 0 && Contains(s[1..], t)
  }

  /** An occurrence past position 0 is an occurrence in the tail, one place earlier. */
  lemma OccursInTail(s: string, t: string, i: int)
    requires |s| > 0 && i > 0
    ensures OccursAt(s, t, i) <==> OccursAt(s[1..], t, i - 1)
  {
    if 0 <= i <= |s| - |t| {
      assert s[i..i + |t|] == s[1..][i - 1..i - 1 + |t|];
    }
  }

  /** `Contains` agrees with the positional definition of a substring occurrence. */
  lemma {:induction false} ContainsIff(s: string, t: string)
    ensures Contains(s, t) <==> exists i :: OccursAt(s, t, i)
  {
    if |t| > |s| {
    } else if s[..|t|] == t {
      assert OccursAt(s, t, 0);
    } else if |s| > 0 {
      ContainsIff(s[1..], t);
      forall i | 0 < i
        ensures OccursAt(s, t, i) <==> OccursAt(s[1..], t, i - 1)
      {
        OccursInTail(s, t, i);
      }
      if Contains(s[1..], t) {
        var i :| OccursAt(s[1..], t, i);
        assert OccursAt(s, t, i + 1);
      }
    }
  }

  /** Every string includes the empty string. */
  lemma ContainsEmpty(s: string)
    ensures Contains(s, [])
  {
    assert s[..0] == [];
  }

  /** Position of the first `c` in `s`, or `|s|` when there is none. */
  function IndexOf(s: string, c: char): (k: nat)
    ensures k <= |s|
    ensures k < |s| ==> s[k] == c
    ensures forall i :: 0 <= i < k ==> s[i] != c
  {
    if |s| == 0 || s[0] == c then 0 else 1 + IndexOf(s[1..], c)
  }

  /** Lexicographic order on code points. The default `sort()` compares UTF-16 code
      units instead; the two agree unless a character above U+FFFF meets one in
      U+E000 to U+FFFF. */
  predicate Less(a: string, b: string)
  {
    if |a| == 0 then |b| > 0
    else if |b| == 0 then false
    else if a[0] != b[0] then a[0] < b[0]
    else Less(a[1..], b[1..])
  }

  lemma {:induction false} LessIrreflexive(a: string)
    ensures !Less(a, a)
  {
    if |a| > 0 {
      LessIrreflexive(a[1..]);
    }
  }

  lemma {:induction false} LessTransitive(a: string, b: string, c: string)
    requires Less(a, b) && Less(b, c)
    ensures Less(a, c)
  {
    if |a| > 0 && |b| > 0 && |c| > 0 && a[0] == b[0] && b[0] == c[0] {
      LessTransitive(a[1..], b[1..], c[1..]);
    }
  }

  lemma {:induction false} LessTotal(a: string, b: string)
    requires a != b
    ensures Less(a, b) || Less(b, a)
  {
    if |a| > 0 && |b| > 0 && a[0] == b[0] {
      assert a == [a[0]] + a[1..] && b == [b[0]] + b[1..];
      LessTotal(a[1..], b[1..]);
    }
  }

  /** Strictly increasing in `Less` order, hence also free of duplicates. */
  predicate StrictlySorted(s: seq<string>)
  {
    forall i, j :: 0 <= i < j < |s| ==> Less(s[i], s[j])
  }

  /** A strictly sorted list holds no value twice. */
  lemma SortedIsDistinct(s: seq<string>)
    requires StrictlySorted(s)
    ensures Distinct(s)
  {
    forall i, j | 0 <= i < j < |s|
      ensures s[i] != s[j]
    {
      LessIrreflexive(s[i]);
    }
  }

  /** Inserts `x` into a strictly sorted list unless it is already there. */
  function Insert(s: seq<string>, x: string): (r: seq<string>)
    requires StrictlySorted(s)
    ensures StrictlySorted(r)
    ensures forall y :: y in r <==> y in s || y == x
  {
    if |s| == 0 then [x]
    else if x == s[0] then s
    else if Less(x, s[0]) then
      assert forall j :: 0 < j < |s| ==> Less(x, s[j]) by {
        forall j | 0 < j < |s| ensures Less(x, s[j]) { LessTransitive(x, s[0], s[j]); }
      }
      [x] + s
    else
      LessTotal(x, s[0]);
      var t := Insert(s[1..], x);
      assert forall y :: y in t ==> Less(s[0], y);
      [s[0]] + t
  }

  /** `Array.from(new Set(xs)).sort()`: the distinct values of `xs` in increasing order. */
  function SortedDistinct(xs: seq<string>): (r: seq<string>)
    ensures StrictlySorted(r)
    ensures forall y :: y in r <==> y in xs
  {
    if |xs| == 0 then [] else Insert(SortedDistinct(xs[1..]), xs[0])
  }

  /** The head of a strictly sorted list is below every other member. */
  lemma HeadIsLeast(s: seq<string>, y: string)
    requires StrictlySorted(s) && y in s
    ensures y == s[0] || Less(s[0], y)
  {
  }

  /** Two strictly sorted lists with the same members are equal: the sorted list of
      distinct values does not depend on the order in which they were met. */
  lemma {:induction false} SortedUnique(a: seq<string>, b: seq<string>)
    requires StrictlySorted(a) && StrictlySorted(b)
    requires forall y :: y in a <==> y in b
    ensures a == b
  {
    if |a| > 0 { assert a[0] in a; }
    if |b| > 0 { assert b[0] in b; }
    if |a| > 0 && |b| > 0 {
      HeadIsLeast(a, b[0]);
      HeadIsLeast(b, a[0]);
      if a[0] != b[0] {
        LessTransitive(a[0], b[0], a[0]);
        LessIrreflexive(a[0]);
      }
      forall y ensures y in a[1..] <==> y in b[1..]
      {
        if y in a[1..] {
          var i :| 0 <= i < |a[1..]| && a[1..][i] == y;
          assert Less(a[0], a[i + 1]);
          LessIrreflexive(y);
          assert y in b;
          var j :| 0 <= j < |b| && b[j] == y;
          assert j != 0;
          assert b[1..][j - 1] == y;
        }
        if y in b[1..] {
          var i :| 0 <= i < |b[1..]| && b[1..][i] == y;
          assert Less(b[0], b[i + 1]);
          LessIrreflexive(y);
          assert y in a;
          var j :| 0 <= j < |a| && a[j] == y;
          assert j != 0;
          assert a[1..][j - 1] == y;
        }
      }
      SortedUnique(a[1..], b[1..]);
      assert a == [a[0]] + a[1..] && b == [b[0]] + b[1..];
    }
  }

  /** The number a string of decimal digits denotes. */
  function DigitsValue(s: string): nat
    requires forall i :: 0 <= i < |s| ==> '0' <= s[i] <= '9'
  {
    if |s| == 0 then 0 else DigitsValue(s[..|s| - 1]) * 10 + (s[|s| - 1] - '0') as nat
  }

  /** `${n}`: the decimal numeral of `n`, without leading zeros. */
  function NatToString(n: nat): (r: string)
    ensures |r| > 0 && forall i :: 0 <= i < |r| ==> '0' <= r[i] <= '9'
    ensures DigitsValue(r) == n
    ensures r[0] == '0' ==> r == "0"
  {
    var d := ['0' + (n % 10) as char];
    if n < 10 then d
    else
      var r := NatToString(n / 10) + d;
      assert r[..|r| - 1] == NatToString(n / 10);
      r
  }
}
