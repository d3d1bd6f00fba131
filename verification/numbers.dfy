/** When `Number(s)` is not NaN: the StringNumericLiteral grammar of section 7.1.4.1.1
    of ECMA-262 (ToNumber applied to the String type). White space around the
    literal is ignored and an all-blank string converts to 0. */
module Numbers {
  import opened Strings

  predicate IsDigit(c: char) { '0' <= c <= '9' }

  predicate AllDigits(s: string)
  {
    forall i :: 0 <= i < |s| ==> IsDigit(s[i])
  }

  predicate IsHexDigit(c: char)
  {
    IsDigit(c) || 'a' <= c <= 'f' || 'A' <= c <= 'F'
  }

  /** Position of the first exponent marker `e` or `E`, or `|s|`. */
  function IndexOfExponent(s: string): (k: nat)
    ensures k <= |s|
    ensures k < |s| ==> s[k] == 'e' || s[k] == 'E'
    ensures forall i :: 0 <= i < k ==> s[i] != 'e' && s[i] != 'E'
  {
    if |s| == 0 || s[0] == 'e' || s[0] == 'E' then 0 else 1 + IndexOfExponent(s[1..])
  }

  /** DecimalDigits with an optional sign, as in an ExponentPart. */
  predicate IsSignedInteger(x: string)
  {
    if |x| > 0 && (x[0] == '+' || x[0] == '-') then |x| > 1 && AllDigits(x[1..])
    else |x| > 0 && AllDigits(x)
  }

  /** The part before the exponent: `12`, `12.`, `12.5` or `.5`. */
  predicate IsMantissa(m: string)
  {
    var d := IndexOf(m, '.');
    if d == |m| then |m| > 0 && AllDigits(m)
    else AllDigits(m[..d]) && AllDigits(m[d + 1..]) && |m| > 1
  }

  /** StrUnsignedDecimalLiteral. */
  predicate IsUnsignedDecimal(u: string)
  {
    if u == "Infinity" then true
    else
      var e := IndexOfExponent(u);
      IsMantissa(u[..e]) && (e == |u| || IsSignedInteger(u[e + 1..]))
  }

  /** StrDecimalLiteral: an unsigned decimal with an optional sign. */
  predicate IsDecimal(t: string)
  {
    if |t| > 0 && (t[0] == '+' || t[0] == '-') then IsUnsignedDecimal(t[1..])
    else IsUnsignedDecimal(t)
  }

  /** NonDecimalIntegerLiteral: `0x1F`, `0o17`, `0b101` (no sign allowed). */
  predicate IsNonDecimalInteger(t: string)
  {
    && |t| >= 3 && t[0] == '0'
    && (|| ((t[1] == 'x' || t[1] == 'X') && forall i :: 2 <= i < |t| ==> IsHexDigit(t[i]))
        || ((t[1] == 'o' || t[1] == 'O') && forall i :: 2 <= i < |t| ==> '0' <= t[i] <= '7')
        || ((t[1] == 'b' || t[1] == 'B') && forall i :: 2 <= i < |t| ==> '0' <= t[i] <= '1'))
  }

  /** `!Number.isNaN(Number(s))` for a string `s`. */
  predicate ParsesAsNumber(s: string)
    ensures IsBlank(s) ==> ParsesAsNumber(s)
  {
    var t := Trim(s);
    t == [] || IsDecimal(t) || IsNonDecimalInteger(t)
  }

  /** A non-empty run of decimal digits, padded or not, is a number. */
  lemma DigitsParse(s: string)
    requires |s| > 0 && AllDigits(s)
    ensures ParsesAsNumber(s)
  {
    TrimUnpadded(s);
    assert IndexOf(s, '.') == |s|;
    assert IndexOfExponent(s) == |s|;
    assert s[..|s|] == s;
  }

  predicate HasDigit(s: string)
  {
    exists i :: 0 <= i < |s| && IsDigit(s[i])
  }

  lemma MantissaHasDigit(m: string)
    requires IsMantissa(m)
    ensures HasDigit(m)
  {
    var d := IndexOf(m, '.');
    if d == |m| || d > 0 {
      assert IsDigit(m[0]);
    } else {
      assert m[d + 1..][0] == m[1];
      assert IsDigit(m[1]);
    }
  }

  lemma UnsignedDecimalHasDigit(u: string)
    requires IsUnsignedDecimal(u) && u != "Infinity"
    ensures HasDigit(u)
  {
    var e := IndexOfExponent(u);
    MantissaHasDigit(u[..e]);
    var i :| 0 <= i < e && IsDigit(u[..e][i]);
    assert IsDigit(u[i]);
  }

  /** A string that is not blank and holds neither a digit nor the `I` of `Infinity`
      is NaN under `Number`: text such as "N/A" or "East" never counts as numeric. */
  lemma NoDigitsNoNumber(s: string)
    requires forall i :: 0 <= i < |s| ==> !IsDigit(s[i]) && s[i] != 'I'
    requires !IsBlank(s)
    ensures !ParsesAsNumber(s)
  {
    var t := Trim(s);
    TrimIsInfix(s);
    var a :| TrimmedAt(s, t, a);
    assert forall i :: 0 <= i < |t| ==> t[i] == s[a + i];
    assert !HasDigit(t);
    if IsDecimal(t) {
      if |t| > 0 && (t[0] == '+' || t[0] == '-') {
        assert t[1..] != "Infinity" by { if |t[1..]| > 0 { assert t[1..][0] == t[1]; } }
        assert forall i :: 0 <= i < |t[1..]| ==> t[1..][i] == t[i + 1];
        UnsignedDecimalHasDigit(t[1..]);
      } else {
        assert t != "Infinity" by { assert t[0] != 'I'; }
        UnsignedDecimalHasDigit(t);
      }
    }
    assert !IsNonDecimalInteger(t) by { assert !IsDigit(t[0]); }
  }
}
