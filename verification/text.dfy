/** The handful of Python and SQL string behaviours the hostel views and forms rely on:
    `str.strip()`, `int(text)`, `decimal.Decimal(text)`, `str(n)`, `str.split(',')[0]`
    and Django's case-insensitive `icontains` lookup. */
module Text {
  import opened Wrappers

  /** Python's `str.isspace` on a single character. */
  predicate IsSpace(c: char) {
    || c == ' '
    || ('\t' <= c <= '\r')
    || ('\U{1C}' <= c <= '\U{1F}')
    || c == '\U{85}'
    || c == '\U{A0}'
    || c == '\U{1680}'
    || ('\U{2000}' <= c <= '\U{200A}')
    || c == '\U{2028}'
    || c == '\U{2029}'
    || c == '\U{202F}'
    || c == '\U{205F}'
    || c == '\U{3000}'
  }

  predicate AllSpace(s: string) {
    forall i :: 0 <= i < |s| ==> IsSpace(s[i])
  }

  /** Number of whitespace characters at the front of `s`. */
  function LeadingSpaces(s: string): (n: nat)
    ensures n <= |s|
    ensures AllSpace(s[..n])
    ensures n < |s| ==> !IsSpace(s[n])
  {
    if |s| == 0 || !IsSpace(s[0]) then 0
    else
      var m := LeadingSpaces(s[1..]);
      assert s[..m + 1] == [s[0]] + s[1..][..m];
      m + 1
  }

  /** Number of whitespace characters at the end of `s`. */
  function TrailingSpaces(s: string): (n: nat)
    ensures n <= |s|
    ensures AllSpace(s[|s| - n..])
    ensures n < |s| ==> !IsSpace(s[|s| - n - 1])
  {
    if |s| == 0 || !IsSpace(s[|s| - 1]) then 0
    else
      var t := s[..|s| - 1];
      var m := TrailingSpaces(t);
      assert s[|s| - (m + 1)..] == t[|t| - m..] + [s[|s| - 1]];
      m + 1
  }

  /** Python's `str.strip()`: `s` without its leading and trailing whitespace. */
  function Strip(s: string): (r: string)
    ensures LeadingSpaces(s) + |r| <= |s|
    ensures r == s[LeadingSpaces(s)..LeadingSpaces(s) + |r|]
    ensures AllSpace(s[LeadingSpaces(s) + |r|..])
    ensures r == [] <==> AllSpace(s)
    ensures r != [] ==> !IsSpace(r[0]) && !IsSpace(r[|r| - 1])
  {
    var n := LeadingSpaces(s);
    var t := s[n..];
    var r := t[..|t| - TrailingSpaces(t)];
    assert r == [] ==> AllSpace(s) by {
      if r == [] {
        assert t[|t| - |t|..] == t;
        assert n == |s|;
        assert s[..n] == s;
      }
    }
    r
  }

  /** A string with no whitespace at either end is its own stripped form. */
  lemma {:induction false} StripUnchanged(s: string)
    requires s == [] || (!IsSpace(s[0]) && !IsSpace(s[|s| - 1]))
    ensures Strip(s) == s
  {
    if s != [] {
      assert LeadingSpaces(s) == 0;
      assert TrailingSpaces(s) == 0;
    }
  }

  /** Stripping twice is stripping once. */
  lemma {:induction false} StripIdempotent(s: string)
    ensures Strip(Strip(s)) == Strip(s)
  {
    StripUnchanged(Strip(s));
  }

  predicate IsDigit(c: char) {
    '0' <= c <= '9'
  }

  predicate AllDigits(s: string) {
    forall i :: 0 <= i < |s| ==> IsDigit(s[i])
  }

  function DigitValue(c: char): (d: nat)
    requires IsDigit(c)
    ensures d < 10
  {
    (c as int) - ('0' as int)
  }

  function DigitChar(d: nat): (c: char)
    requires d < 10
    ensures IsDigit(c) && DigitValue(c) == d
  {
    ('0' as int + d) as char
  }

  /** Value of a string of decimal digits, most significant first; the empty string reads 0. */
  function DigitsValue(s: string): nat
    requires AllDigits(s)
  {
    if |s| == 0 then 0 else DigitsValue(s[..|s| - 1]) * 10 + DigitValue(s[|s| - 1])
  }

  /** Python's `str(n)` for a natural number: its decimal digits, without leading zeros. */
  function NatToDigits(n: nat): (s: string)
    ensures |s| >= 1 && AllDigits(s)
    ensures DigitsValue(s) == n
    ensures s[0] == '0' ==> n == 0
    decreases n
  {
    if n < 10 then [DigitChar(n)]
    else
      var p := NatToDigits(n / 10);
      var s := p + [DigitChar(n % 10)];
      assert s[..|s| - 1] == p;
      s
  }

  /** Python's `str(n)` for any integer. */
  function FormatInt(n: int): (s: string)
    ensures |s| >= 1
    ensures n >= 0 ==> AllDigits(s)
    ensures n < 0 ==> s[0] == '-' && AllDigits(s[1..])
  {
    if n < 0 then "-" + NatToDigits(-n) else NatToDigits(n)
  }

  /** Python's `int(text)` in base 10 on ASCII text: surrounding whitespace, an optional
      sign, then one or more digits `0`-`9`; other ASCII text is a `ValueError`, read as
      `None`. Python also reads other Unicode decimal digits and refuses more than 4300
      digits; neither is modelled here. */
  function ParseInt(text: string): Option<int>
  {
    var t := Strip(text);
    if |t| > 0 && (t[0] == '+' || t[0] == '-') then
      var body := t[1..];
      if |body| > 0 && AllDigits(body) then
        var magnitude: int := DigitsValue(body);
        Some(if t[0] == '-' then -magnitude else magnitude)
      else None
    else if |t| > 0 && AllDigits(t) then Some(DigitsValue(t) as int)
    else None
  }

  /** `int(str(n)) == n`: every integer reads back from its decimal text. */
  lemma {:induction false} ParseFormatInt(n: int)
    ensures ParseInt(FormatInt(n)) == Some(n)
  {
    var s := FormatInt(n);
    assert !IsSpace(s[0]) && !IsSpace(s[|s| - 1]);
    StripUnchanged(s);
    if n < 0 {
      assert s[1..] == NatToDigits(-n);
    }
  }

  function Pow10(k: nat): (p: nat)
    ensures p >= 1
  {
    if k == 0 then 1 else 10 * Pow10(k - 1)
  }

  /** Index of the first occurrence of `c` in `s`, or `|s|` when `c` does not occur. */
  function FindChar(s: string, c: char): (k: nat)
    ensures k <= |s|
    ensures k < |s| ==> s[k] == c
    ensures forall i :: 0 <= i < k ==> s[i] != c
  {
    if |s| == 0 || s[0] == c then 0 else 1 + FindChar(s[1..], c)
  }

  /** Python's `text.split(c)[0]`: the text before the first `c`, or all of it. */
  function BeforeFirst(text: string, c: char): (r: string)
    ensures r <= text
    ensures c !in r
    ensures r == text || text[|r|] == c
  {
    text[..FindChar(text, c)]
  }

  /** Python's `decimal.Decimal(text)` on positional notation with ASCII digits:
      surrounding whitespace, an optional sign, then an unsigned decimal. `None` stands for
      the `InvalidOperation` Python raises; the other notations Python reads (exponents,
      `NaN`, `Infinity`, underscores, digits of other scripts) are `None` here as well. */
  function ParseDecimal(text: string): Option<real>
  {
    var t := Strip(text);
    var signed := |t| > 0 && (t[0] == '+' || t[0] == '-');
    var m := UnsignedDecimal(if signed then t[1..] else t);
    if m.None? then None
    else Some(if signed && t[0] == '-' then -m.value else m.value)
  }

  /** Digits with at most one decimal point and at least one digit. */
  function UnsignedDecimal(body: string): Option<real>
  {
    var k := FindChar(body, '.');
    var whole := body[..k];
    var frac := if k < |body| then body[k + 1..] else [];
    if AllDigits(whole) && AllDigits(frac) && |whole| + |frac| > 0 then
      Some(DigitsValue(whole) as real + (DigitsValue(frac) as real) / (Pow10(|frac|) as real))
    else None
  }

  lemma {:induction false} UnsignedDecimalOfDigits(body: string)
    requires |body| > 0 && AllDigits(body)
    ensures UnsignedDecimal(body) == Some(DigitsValue(body) as real)
  {
    assert FindChar(body, '.') == |body|;
    assert body[..|body|] == body;
  }

  /** `Decimal(str(n)) == n`: an integer's text reads back as the same decimal. */
  lemma {:induction false} ParseDecimalOfInt(n: int)
    ensures ParseDecimal(FormatInt(n)) == Some(n as real)
  {
    var s := FormatInt(n);
    assert !IsSpace(s[0]) && !IsSpace(s[|s| - 1]);
    StripUnchanged(s);
    if n < 0 {
      assert s[1..] == NatToDigits(-n);
      UnsignedDecimalOfDigits(s[1..]);
    } else {
      UnsignedDecimalOfDigits(s);
    }
  }

  /** Text that contains a letter is not a decimal number. */
  lemma {:induction false} ParseDecimalRejectsLetters(text: string)
    requires Strip(text) == "abc"
    ensures ParseDecimal(text) == None
  {
    var body := "abc";
    assert FindChar(body, '.') == 3;
    assert !IsDigit(body[..3][0]);
    assert UnsignedDecimal(body) == None;
  }

  /** ASCII-only lower-casing: SQLite's `LIKE` folds only ASCII letters. */
  function LowerChar(c: char): char {
    if 'A' <= c <= 'Z' then (c as int + 32) as char else c
  }

  function Lower(s: string): string {
    seq(|s|, i requires 0 <= i < |s| => LowerChar(s[i]))
  }

  /** `needle` occurs in `hay` as a contiguous piece. */
  predicate Contains(hay: string, needle: string) {
    exists i :: 0 <= i <= |hay| - |needle| && OccursAt(hay, needle, i)
  }

  predicate OccursAt(hay: string, needle: string, i: int)
    requires 0 <= i <= |hay| - |needle|
  {
    hay[i..i + |needle|] == needle
  }

  /** Django's `field__icontains=needle` lookup. */
  predicate ContainsIgnoringCase(hay: string, needle: string) {
    Contains(Lower(hay), Lower(needle))
  }
}
