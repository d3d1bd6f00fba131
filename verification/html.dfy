/** `escapeHtml` (script.js), which makes a cell value safe to splice into the
    `<option>` markup of a dropdown, and the entity decoding the HTML parser
    applies when it reads that markup back. */
module Html {
  import opened Seqs

  /** `s.replace(/c/g, rep)` for a one-character pattern. */
  function ReplaceAll(s: string, c: char, rep: string): (r: string)
    ensures c !in s ==> r == s
  {
    if |s| == 0 then []
    else (if s[0] == c then rep else [s[0]]) + ReplaceAll(s[1..], c, rep)
  }

  lemma {:induction false} ReplaceAllAppend(a: string, b: string, c: char, rep: string)
    ensures ReplaceAll(a + b, c, rep) == ReplaceAll(a, c, rep) + ReplaceAll(b, c, rep)
  {
    if |a| == 0 {
      assert a + b == b;
    } else {
      assert (a + b)[0] == a[0];
      assert (a + b)[1..] == a[1..] + b;
      ReplaceAllAppend(a[1..], b, c, rep);
    }
  }

  /** The replacements of `escapeHtml`, in the order they are applied: ampersands
      first, so that the entities introduced later are not escaped again. */
  const HtmlPasses: seq<(char, string)> :=
    [('&', "&amp;"), ('<', "&lt;"), ('>', "&gt;"), ('"', "&quot;"), ('\'', "&#039;")]

  /** Applies the replacements one after the other. */
  function ReplaceEach(s: string, passes: seq<(char, string)>): string
    decreases |passes|
  {
    if |passes| == 0 then s else ReplaceEach(ReplaceAll(s, passes[0].0, passes[0].1), passes[1..])
  }

  /** `escapeHtml`: text holding none of the five special characters comes back
      unchanged. */
  function EscapeHtml(s: string): (r: string)
    ensures (forall i :: 0 <= i < |s| ==> s[i] != '&' && !IsMarkup(s[i])) ==> r == s
  {
    assert (forall i :: 0 <= i < |s| ==> s[i] != '&' && !IsMarkup(s[i])) ==> ReplaceEach(s, HtmlPasses) == s by {
      if forall i :: 0 <= i < |s| ==> s[i] != '&' && !IsMarkup(s[i]) {
        ReplaceEachUnused(s, HtmlPasses);
      }
    }
    ReplaceEach(s, HtmlPasses)
  }

  /** The entity that stands for one character. */
  function EscapeChar(c: char): (r: string)
    ensures |r| > 0
  {
    match c
    case '&' => "&amp;"
    case '<' => "&lt;"
    case '>' => "&gt;"
    case '"' => "&quot;"
    case '\'' => "&#039;"
    case _ => [c]
  }

  /** Reference definition: every character replaced by its entity independently. */
  function EscapeEach(s: string): (r: string)
    ensures |r| >= |s|
  {
    if |s| == 0 then [] else EscapeChar(s[0]) + EscapeEach(s[1..])
  }

  /** A character that `escapeHtml` must not let through. */
  predicate IsMarkup(c: char)
  {
    c == '<' || c == '>' || c == '"' || c == '\''
  }

  lemma ReplaceAllSingle(x: char, c: char, rep: string)
    ensures ReplaceAll([x], c, rep) == if x == c then rep else [x]
  {
    assert [x][1..] == [];
  }

  /** Replacements whose characters do not occur leave the text alone. */
  lemma {:induction false} ReplaceEachUnused(s: string, passes: seq<(char, string)>)
    requires forall i, j :: 0 <= i < |s| && 0 <= j < |passes| ==> s[i] != passes[j].0
    ensures ReplaceEach(s, passes) == s
    decreases |passes|
  {
    if |passes| > 0 {
      assert passes[0].0 !in s;
      ReplaceEachUnused(s, passes[1..]);
    }
  }

  lemma {:induction false} ReplaceEachAppend(a: string, b: string, passes: seq<(char, string)>)
    ensures ReplaceEach(a + b, passes) == ReplaceEach(a, passes) + ReplaceEach(b, passes)
    decreases |passes|
  {
    if |passes| > 0 {
      var (c, rep) := passes[0];
      ReplaceAllAppend(a, b, c, rep);
      ReplaceEachAppend(ReplaceAll(a, c, rep), ReplaceAll(b, c, rep), passes[1..]);
    }
  }

  /** The character replaced by the `k`-th pass and nothing else: its entity comes out,
      untouched by the passes after it. */
  lemma ReplaceEachHit(c: char, passes: seq<(char, string)>, k: nat)
    requires k < |passes| && passes[k].0 == c
    requires forall j :: 0 <= j < k ==> passes[j].0 != c
    requires forall i, j :: 0 <= i < |passes[k].1| && k < j < |passes| ==> passes[k].1[i] != passes[j].0
    ensures ReplaceEach([c], passes) == passes[k].1
    decreases k
  {
    ReplaceAllSingle(c, passes[0].0, passes[0].1);
    if k == 0 {
      ReplaceEachUnused(passes[0].1, passes[1..]);
    } else {
      ReplaceEachHit(c, passes[1..], k - 1);
    }
  }

  /** Escaping one character in five passes gives its entity. */
  lemma EscapeHtmlChar(c: char)
    ensures EscapeHtml([c]) == EscapeChar(c)
  {
    var p := HtmlPasses;
    if c == '&' {
      ReplaceEachHit(c, p, 0);
    } else if c == '<' {
      ReplaceEachHit(c, p, 1);
    } else if c == '>' {
      ReplaceEachHit(c, p, 2);
    } else if c == '"' {
      ReplaceEachHit(c, p, 3);
    } else if c == '\'' {
      ReplaceEachHit(c, p, 4);
    } else {
      ReplaceEachUnused([c], p);
    }
  }

  /** Escaping distributes over concatenation. */
  lemma EscapeHtmlAppend(a: string, b: string)
    ensures EscapeHtml(a + b) == EscapeHtml(a) + EscapeHtml(b)
  {
    ReplaceEachAppend(a, b, HtmlPasses);
  }

  /** The chain of replacements is the character-wise escape: in particular no
      entity produced by one pass is rewritten by a later one. */
  lemma {:induction false} EscapeHtmlIsEscapeEach(s: string)
    ensures EscapeHtml(s) == EscapeEach(s)
  {
    if |s| > 0 {
      assert s == [s[0]] + s[1..];
      EscapeHtmlAppend([s[0]], s[1..]);
      EscapeHtmlChar(s[0]);
      EscapeHtmlIsEscapeEach(s[1..]);
    }
  }

  lemma {:induction false} EscapeEachHasNoMarkup(s: string)
    ensures forall i :: 0 <= i < |EscapeEach(s)| ==> !IsMarkup(EscapeEach(s)[i])
  {
    if |s| > 0 {
      EscapeEachHasNoMarkup(s[1..]);
      var e := EscapeChar(s[0]);
      assert forall i :: 0 <= i < |e| ==> !IsMarkup(e[i]);
    }
  }

  /** The escaped text holds no `<`, `>`, `"` or `'`. */
  lemma EscapeHtmlHasNoMarkup(s: string)
    ensures forall i :: 0 <= i < |EscapeHtml(s)| ==> !IsMarkup(EscapeHtml(s)[i])
  {
    EscapeHtmlIsEscapeEach(s);
    EscapeEachHasNoMarkup(s);
  }

  /** Entity decoding as the HTML parser performs it for the five entities. */
  function Unescape(s: string): (r: string)
    ensures |r| <= |s|
  {
    if |s| == 0 then []
    else if s[0] != '&' then [s[0]] + Unescape(s[1..])
    else if |s| >= 5 && s[..5] == "&amp;" then "&" + Unescape(s[5..])
    else if |s| >= 4 && s[..4] == "&lt;" then "<" + Unescape(s[4..])
    else if |s| >= 4 && s[..4] == "&gt;" then ">" + Unescape(s[4..])
    else if |s| >= 6 && s[..6] == "&quot;" then "\"" + Unescape(s[6..])
    else if |s| >= 6 && s[..6] == "&#039;" then "'" + Unescape(s[6..])
    else [s[0]] + Unescape(s[1..])
  }

  lemma UnescapeEscapedChar(c: char, rest: string)
    ensures Unescape(EscapeChar(c) + rest) == [c] + Unescape(rest)
  {
    if c == '&' {
      UnescapeEntity("&amp;", rest);
    } else if c == '<' {
      UnescapeEntity("&lt;", rest);
    } else if c == '>' {
      UnescapeEntity("&gt;", rest);
    } else if c == '"' {
      UnescapeEntity("&quot;", rest);
    } else if c == '\'' {
      UnescapeEntity("&#039;", rest);
    } else {
      assert ([c] + rest)[0] == c && ([c] + rest)[1..] == rest;
    }
  }

  /** An entity at the head of the text decodes to its character. */
  lemma UnescapeEntity(e: string, rest: string)
    requires e in {"&amp;", "&lt;", "&gt;", "&quot;", "&#039;"}
    ensures Unescape(e + rest) == [DecodedEntity(e)] + Unescape(rest)
  {
    var s := e + rest;
    assert s[..|e|] == e && s[|e|..] == rest;
    assert s[0] == '&';
    if e != "&amp;" {
      assert s[1] == e[1] != 'a';
    }
    if e == "&quot;" || e == "&#039;" {
      assert s[1] != 'l' && s[1] != 'g';
    }
  }

  function DecodedEntity(e: string): char
  {
    match e
    case "&amp;" => '&'
    case "&lt;" => '<'
    case "&gt;" => '>'
    case "&quot;" => '"'
    case _ => '\''
  }

  /** Decoding undoes escaping: a dropdown built from escaped option text reports the
      original value as its `select.value`. */
  lemma {:induction false} UnescapeEscapeHtml(s: string)
    ensures Unescape(EscapeHtml(s)) == s
  {
    EscapeHtmlIsEscapeEach(s);
    UnescapeEscapeEach(s);
  }

  lemma {:induction false} UnescapeEscapeEach(s: string)
    ensures Unescape(EscapeEach(s)) == s
  {
    if |s| > 0 {
      UnescapeEscapedChar(s[0], EscapeEach(s[1..]));
      UnescapeEscapeEach(s[1..]);
      assert s == [s[0]] + s[1..];
    }
  }
}
