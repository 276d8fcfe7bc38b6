/** String primitives the table engine relies on: JavaScript's `trim`,
    `toLowerCase`, `includes`, the "is this cell a number" test and the
    ordering used for text columns. */
module Text {

  /** The code points JavaScript's `String.prototype.trim` removes:
      WhiteSpace (tab, vertical tab, form feed, space, no-break space,
      byte order mark, the Zs category) and LineTerminator. */
  predicate IsSpace(c: char) {
    || c == '\t' || c == '\n' || c == '\U{000B}' || c == '\U{000C}' || c == '\r'
    || c == ' ' || c == '\U{00A0}' || c == '\U{1680}'
    || ('\U{2000}' <= c <= '\U{200A}')
    || c == '\U{2028}' || c == '\U{2029}' || c == '\U{202F}' || c == '\U{205F}'
    || c == '\U{3000}' || c == '\U{FEFF}'
  }

  /** Drops leading white space (`trimStart`). */
  function TrimStart(s: string): string {
    if s == [] || !IsSpace(s[0]) then s else TrimStart(s[1..])
  }

  /** Drops trailing white space (`trimEnd`). */
  function TrimEnd(s: string): string {
    if s == [] || !IsSpace(s[|s| - 1]) then s else TrimEnd(s[..|s| - 1])
  }

  /** `String.prototype.trim`. */
  function Trim(s: string): string {
    TrimEnd(TrimStart(s))
  }

  /** TrimStart leaves a suffix of `s`, drops only white space, and the
      result does not start with any. */
  lemma {:induction false} TrimStartSpec(s: string)
    ensures var r := TrimStart(s);
            && |r| <= |s| && r == s[|s| - |r|..]
            && (forall k :: 0 <= k < |s| - |r| ==> IsSpace(s[k]))
            && (r == [] || !IsSpace(r[0]))
  {
    if s != [] && IsSpace(s[0]) {
      TrimStartSpec(s[1..]);
      var r := TrimStart(s[1..]);
      assert forall k :: 1 <= k < |s| - |r| ==> s[k] == s[1..][k - 1];
    }
  }

  /** TrimEnd leaves a prefix of `s`, drops only white space, and the
      result does not end with any. */
  lemma {:induction false} TrimEndSpec(s: string)
    ensures var r := TrimEnd(s);
            && |r| <= |s| && r == s[..|r|]
            && (forall k :: |r| <= k < |s| ==> IsSpace(s[k]))
            && (r == [] || !IsSpace(r[|r| - 1]))
  {
    if s != [] && IsSpace(s[|s| - 1]) {
      TrimEndSpec(s[..|s| - 1]);
      var r := TrimEnd(s[..|s| - 1]);
      assert forall k :: |r| <= k < |s| - 1 ==> s[k] == s[..|s| - 1][k];
    }
  }

  /** `r` is `s` with white space only removed from its two ends, the
      kept part starting at position `i` of `s`. */
  predicate TrimmedAt(s: string, r: string, i: int) {
    && 0 <= i <= |s| - |r|
    && r == s[i..i + |r|]
    && (forall k :: 0 <= k < i ==> IsSpace(s[k]))
    && (forall k :: i + |r| <= k < |s| ==> IsSpace(s[k]))
  }

  /** Trim keeps a contiguous piece of `s` with neither leading nor
      trailing white space, removing only white space from both ends. */
  lemma TrimSpec(s: string)
    ensures var r := Trim(s);
            && (r == [] || (!IsSpace(r[0]) && !IsSpace(r[|r| - 1])))
            && exists i :: TrimmedAt(s, r, i)
  {
    var t := TrimStart(s);
    var r := TrimEnd(t);
    TrimStartSpec(s);
    TrimEndSpec(t);
    var i := |s| - |t|;
    assert TrimmedAt(s, r, i) by {
      assert t == s[i..];
      assert r == s[i..i + |r|];
      forall k | i + |r| <= k < |s|
        ensures IsSpace(s[k])
      {
        assert s[k] == t[k - i];
      }
    }
  }

  /** `toLowerCase` on one character, for the Basic Latin and Latin-1
      letters: A-Z and the Latin-1 capitals U+00C0..U+00DE except the
      multiplication sign U+00D7 move up by 32; everything else is kept. */
  function LowerChar(c: char): char {
    if ('A' <= c <= 'Z') || ('\U{00C0}' <= c <= '\U{00DE}' && c != '\U{00D7}')
    then (c as int + 32) as char
    else c
  }

  predicate IsUpper(c: char) {
    ('A' <= c <= 'Z') || ('\U{00C0}' <= c <= '\U{00DE}' && c != '\U{00D7}')
  }

  /** `String.prototype.toLowerCase`, character by character. */
  function Lower(s: string): (r: string)
    ensures |r| == |s|
    ensures forall k :: 0 <= k < |s| ==> !IsUpper(r[k])
    ensures forall k :: 0 <= k < |s| && !IsUpper(s[k]) ==> r[k] == s[k]
    ensures forall k :: 0 <= k < |s| && IsUpper(s[k]) ==> r[k] as int == s[k] as int + 32
  {
    seq(|s|, k requires 0 <= k < |s| => LowerChar(s[k]))
  }

  /** `a` and `b` differ at most in the case of their letters: at each
      position they agree, or one has a capital and the other its small
      letter. */
  predicate CaseVariants(a: string, b: string) {
    && |a| == |b|
    && forall k :: 0 <= k < |a| ==>
         || a[k] == b[k]
         || (IsUpper(a[k]) && b[k] as int == a[k] as int + 32)
         || (IsUpper(b[k]) && a[k] as int == b[k] as int + 32)
  }

  /** Texts that differ only in the case of their letters lower-case to the
      same text. */
  lemma LowerIgnoresCase(a: string, b: string)
    requires CaseVariants(a, b)
    ensures Lower(a) == Lower(b)
  {
    forall k | 0 <= k < |a|
      ensures Lower(a)[k] == Lower(b)[k]
    {
      if IsUpper(a[k]) && b[k] as int == a[k] as int + 32 {
        assert !IsUpper(b[k]);
      } else if IsUpper(b[k]) && a[k] as int == b[k] as int + 32 {
        assert !IsUpper(a[k]);
      }
    }
  }

  /** `needle` occurs in `hay` starting at position `i`. */
  predicate OccursAt(hay: string, needle: string, i: int) {
    0 <= i && i + |needle| <= |hay| && hay[i..i + |needle|] == needle
  }

  /** `String.prototype.includes`: a left-to-right scan; it is true exactly
      when `needle` occurs somewhere in `hay`. */
  function Contains(hay: string, needle: string): (r: bool)
    ensures r <==> exists i :: OccursAt(hay, needle, i)
    decreases |hay|
  {
    if |needle| > |hay| then false
    else if hay[..|needle|] == needle then
      assert OccursAt(hay, needle, 0);
      true
    else
      var r := Contains(hay[1..], needle);
      assert !OccursAt(hay, needle, 0);
      if r then
        var j :| OccursAt(hay[1..], needle, j);
        OccursShift(hay, needle, j + 1);
        true
      else
        assert forall i :: !OccursAt(hay, needle, i) by {
          forall i ensures !OccursAt(hay, needle, i) {
            if i >= 1 { OccursShift(hay, needle, i); }
          }
        }
        false
  }

  lemma OccursShift(hay: string, needle: string, i: int)
    requires |hay| >= 1 && i >= 1
    ensures OccursAt(hay, needle, i) <==> OccursAt(hay[1..], needle, i - 1)
  {
    if i + |needle| <= |hay| {
      assert hay[1..][i - 1..i - 1 + |needle|] == hay[i..i + |needle|];
    }
  }

  /** The empty string occurs in every string, so an empty search term
      matches everything. */
  lemma ContainsEmpty(hay: string)
    ensures Contains(hay, [])
  {
    assert OccursAt(hay, [], 0);
  }

  // ---------------------------------------------------------------------
  // Numbers written as text
  // ---------------------------------------------------------------------

  predicate IsDigit(c: char) { '0' <= c <= '9' }

  predicate AllDigits(s: string) {
    forall k :: 0 <= k < |s| ==> IsDigit(s[k])
  }

  /** The value of a string of decimal digits. */
  function DigitsValue(s: string): nat
    requires AllDigits(s)
  {
    if s == [] then 0
    else DigitsValue(s[..|s| - 1]) * 10 + (s[|s| - 1] as int - '0' as int)
  }

  function Pow10(n: nat): (r: nat)
    ensures r >= 1
  {
    if n == 0 then 1 else 10 * Pow10(n - 1)
  }

  /** The position of the first '.', or |s| when there is none. */
  function DotIndex(s: string): (k: nat)
    ensures k <= |s|
    ensures forall j :: 0 <= j < k ==> s[j] != '.'
    ensures k < |s| ==> s[k] == '.'
  {
    if s == [] then 0
    else if s[0] == '.' then 0
    else
      var k := DotIndex(s[1..]);
      assert forall j :: 1 <= j < k + 1 ==> s[j] == s[1..][j - 1];
      k + 1
  }

  /** The string without a leading '+' or '-'. */
  function Unsigned(s: string): string {
    if |s| > 0 && (s[0] == '+' || s[0] == '-') then s[1..] else s
  }

  /** An unsigned decimal: digits, optionally a '.' and more digits, with
      at least one digit in all. */
  predicate IsUnsignedDecimal(u: string) {
    var k := DotIndex(u);
    && |u| > 0 && u != "."
    && AllDigits(u[..k])
    && (k < |u| ==> AllDigits(u[k + 1..]))
  }

  /** `!isNaN(s)` for an already trimmed string `s`: `Number("")` is 0, not
      NaN, and a signed decimal literal converts to a number. */
  predicate IsNumberText(s: string) {
    s == [] || IsUnsignedDecimal(Unsigned(s))
  }

  /** The per-cell test of the numeric-column scan:
      `!isNaN(cellValue) && cellValue !== ''`. */
  predicate IsNumericCell(s: string) {
    IsNumberText(s) && s != []
  }

  /** `parseFloat` of a numeric cell, as an exact rational. */
  function NumValue(s: string): real
    requires IsNumericCell(s)
  {
    var u := Unsigned(s);
    var k := DotIndex(u);
    var whole := DigitsValue(u[..k]) as real;
    var frac := if k < |u| then DigitsValue(u[k + 1..]) as real / Pow10(|u| - k - 1) as real else 0.0;
    if s[0] == '-' then -(whole + frac) else whole + frac
  }

  /** Integer and fractional texts are numbers, with their usual values. */
  lemma NumericCellExamples()
    ensures IsNumericCell("42") && NumValue("42") == 42.0
    ensures IsNumericCell("-3.5") && NumValue("-3.5") == -3.5
  {
    assert DotIndex("42") == 2;
    assert "42"[..2] == "42";
    assert DigitsValue("42") == DigitsValue("4") * 10 + 2 by {
      assert "42"[..1] == "4";
    }
    assert DigitsValue("4") == 4 by { assert "4"[..0] == []; }
    assert Unsigned("-3.5") == "3.5";
    assert DotIndex("3.5") == 1;
    assert "3.5"[..1] == "3" && "3.5"[2..] == "5";
    assert DigitsValue("3") == 3 by { assert "3"[..0] == []; }
    assert DigitsValue("5") == 5 by { assert "5"[..0] == []; }
  }

  /** A lone sign or dot, text, a decimal comma and two dots are not
      numbers; neither is the empty cell, although `Number("")` is 0. */
  lemma NonNumericCellExamples()
    ensures IsNumberText("") && !IsNumericCell("")
    ensures !IsNumericCell(".") && !IsNumericCell("-")
    ensures !IsNumericCell("x") && !IsNumericCell("1,5") && !IsNumericCell("1.2.3")
  {
    assert Unsigned("x") == "x" && DotIndex("x") == 1 && !IsDigit('x');
    assert Unsigned("1,5") == "1,5";
    assert DotIndex("1,5") == 3 by {
      assert DotIndex("5") == 1;
      assert "1,5"[1..] == ",5" && ",5"[1..] == "5";
    }
    assert "1,5"[..3] == "1,5" && !IsDigit("1,5"[1]);
    assert Unsigned("1.2.3") == "1.2.3" && DotIndex("1.2.3") == 1 && "1.2.3"[2..] == "2.3";
    assert !IsDigit("2.3"[1]);
  }

  // ---------------------------------------------------------------------
  // Ordering of text cells
  // ---------------------------------------------------------------------

  /** Lexicographic order by code point: the model of `localeCompare(...) <= 0`. */
  predicate LexLe(a: string, b: string) {
    if a == [] then true
    else if b == [] then false
    else if a[0] != b[0] then a[0] < b[0]
    else LexLe(a[1..], b[1..])
  }

  lemma {:induction false} LexLeTotal(a: string, b: string)
    ensures LexLe(a, b) || LexLe(b, a)
  {
    if a != [] && b != [] && a[0] == b[0] {
      LexLeTotal(a[1..], b[1..]);
    }
  }

  lemma {:induction false} LexLeAntisymmetric(a: string, b: string)
    requires LexLe(a, b) && LexLe(b, a)
    ensures a == b
  {
    if a != [] && b != [] {
      LexLeAntisymmetric(a[1..], b[1..]);
      assert a == [a[0]] + a[1..] && b == [b[0]] + b[1..];
    }
  }

  lemma {:induction false} LexLeTransitive(a: string, b: string, c: string)
    requires LexLe(a, b) && LexLe(b, c)
    ensures LexLe(a, c)
  {
    if a != [] && b != [] && c != [] && a[0] == b[0] && b[0] == c[0] {
      LexLeTransitive(a[1..], b[1..], c[1..]);
    }
  }
}
