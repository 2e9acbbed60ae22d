/** The parts of Python's `str` that the bus search relies on: `lower()`,
    `strip()`, ASCII digits, `int()` on a digit string, and the decimal
    renderings `{n}` and `{n:02d}` of a non-negative integer. */
module Text {

  // ---------------------------------------------------------------- lower()

  /** An ASCII upper-case letter. */
  predicate IsUpper(c: char) { 'A' <= c <= 'Z' }

  /** `c.lower()` for one character; only ASCII letters are folded. */
  function LowerChar(c: char): (r: char)
    ensures !IsUpper(r)
    ensures IsUpper(c) ==> r as int == c as int + 32
    ensures !IsUpper(c) ==> r == c
  {
    if IsUpper(c) then (c as int + 32) as char else c
  }

  /** No ASCII upper-case letter anywhere in `s`. */
  predicate IsLowerCase(s: string) { forall i :: 0 <= i < |s| ==> !IsUpper(s[i]) }

  /** `s.lower()`: every character folded on its own, length kept. */
  function Lower(s: string): (r: string)
    ensures |r| == |s|
    ensures forall i :: 0 <= i < |s| ==> r[i] == LowerChar(s[i])
    ensures IsLowerCase(r)
  {
    if s == [] then [] else [LowerChar(s[0])] + Lower(s[1..])
  }

  /** Lower-casing leaves a string without upper-case letters alone, so
      `lower()` is idempotent. */
  lemma LowerOfLowerCase(s: string)
    requires IsLowerCase(s)
    ensures Lower(s) == s
  {
    assert forall i :: 0 <= i < |s| ==> Lower(s)[i] == s[i];
  }

  // ---------------------------------------------------------------- strip()

  /** The characters for which Python's `str.isspace()` is true, which are
      what `strip()` with no argument removes. */
  predicate IsSpace(c: char)
  {
    || 9 <= c as int <= 13        // \t \n \v \f \r
    || 28 <= c as int <= 32       // the four separator controls and ' '
    || c as int == 0x85 || c as int == 0xA0 || c as int == 0x1680
    || 0x2000 <= c as int <= 0x200A
    || c as int == 0x2028 || c as int == 0x2029 || c as int == 0x202F
    || c as int == 0x205F || c as int == 0x3000
  }

  predicate AllSpace(s: string) { forall i :: 0 <= i < |s| ==> IsSpace(s[i]) }

  /** Neither end of `s` is a whitespace character. */
  predicate IsTrimmed(s: string)
  {
    s == [] || (!IsSpace(s[0]) && !IsSpace(s[|s| - 1]))
  }

  /** `s.lstrip()`: the longest suffix of `s` that does not start with
      whitespace, everything removed being whitespace. */
  function StripLeft(s: string): (r: string)
    ensures |r| <= |s| && r == s[|s| - |r|..]
    ensures AllSpace(s[..|s| - |r|])
    ensures r == [] || !IsSpace(r[0])
  {
    if s != [] && IsSpace(s[0]) then
      var r := StripLeft(s[1..]);
      assert s[..|s| - |r|] == [s[0]] + s[1..][..|s| - 1 - |r|];
      r
    else s
  }

  /** `s.rstrip()`: the longest prefix of `s` that does not end with
      whitespace, everything removed being whitespace. */
  function StripRight(s: string): (r: string)
    ensures |r| <= |s| && r == s[..|r|]
    ensures AllSpace(s[|r|..])
    ensures r == [] || !IsSpace(r[|r| - 1])
  {
    if s != [] && IsSpace(s[|s| - 1]) then
      var r := StripRight(s[..|s| - 1]);
      assert s[|r|..] == s[..|s| - 1][|r|..] + [s[|s| - 1]];
      r
    else s
  }

  /** `s.strip()`: `rstrip` after `lstrip`; no whitespace is left at either
      end. */
  function Strip(s: string): (r: string)
    ensures |r| <= |s| && IsTrimmed(r)
  {
    StripRight(StripLeft(s))
  }

  /** `r` is the piece of `s` that starts at `i`, with only whitespace
      before and after it. */
  predicate IsTrimAt(s: string, r: string, i: nat)
  {
    && i + |r| <= |s| && r == s[i..i + |r|]
    && AllSpace(s[..i]) && AllSpace(s[i + |r|..])
  }

  /** What `strip()` removes: `Strip(s)` is a contiguous piece of `s` with only
      whitespace cut off on either side. */
  lemma StripIsTrim(s: string)
    ensures exists i :: IsTrimAt(s, Strip(s), i)
  {
    var left := StripLeft(s);
    var r := StripRight(left);
    var i := |s| - |left|;
    assert r == Strip(s);
    assert s[i + |r|..] == left[|r|..];
    assert r == s[i..i + |r|];
    assert IsTrimAt(s, r, i);
  }

  /** `strip()` keeps a lower-case string lower-case. */
  lemma StripKeepsLowerCase(s: string)
    requires IsLowerCase(s)
    ensures IsLowerCase(Strip(s))
  {
    var left := StripLeft(s);
    assert IsLowerCase(left) by {
      assert forall k :: 0 <= k < |left| ==> left[k] == s[|s| - |left| + k];
    }
    var r := StripRight(left);
    assert forall k :: 0 <= k < |r| ==> r[k] == left[k];
  }

  /** Stripping an already trimmed string changes nothing. */
  lemma StripOfTrimmed(s: string)
    requires IsTrimmed(s)
    ensures Strip(s) == s
  {
  }

  /** `lstrip()` removes a whitespace prefix and stops at the first other
      character. */
  lemma {:induction false} StripLeftOfSpaces(pre: string, t: string)
    requires AllSpace(pre) && (t == [] || !IsSpace(t[0]))
    ensures StripLeft(pre + t) == t
  {
    if pre != [] {
      assert (pre + t)[1..] == pre[1..] + t;
      StripLeftOfSpaces(pre[1..], t);
    }
  }

  /** `rstrip()` removes a whitespace suffix and stops at the last other
      character. */
  lemma {:induction false} StripRightOfSpaces(t: string, post: string)
    requires AllSpace(post) && (t == [] || !IsSpace(t[|t| - 1]))
    ensures StripRight(t + post) == t
  {
    if post != [] {
      assert (t + post)[..|t + post| - 1] == t + post[..|post| - 1];
      StripRightOfSpaces(t, post[..|post| - 1]);
    }
  }

  /** `strip()` gives back a trimmed string from between any whitespace
      padding. */
  lemma StripOfPadded(pre: string, t: string, post: string)
    requires AllSpace(pre) && IsTrimmed(t) && AllSpace(post)
    ensures Strip(pre + t + post) == t
  {
    if t == [] {
      assert pre + t + post == pre + post;
      StripLeftOfSpaces(pre + post, []);
      assert pre + post + [] == pre + post;
    } else {
      assert pre + t + post == pre + (t + post);
      StripLeftOfSpaces(pre, t + post);
      StripRightOfSpaces(t, post);
    }
  }

  // ---------------------------------------------------------------- digits and int()

  /** An ASCII decimal digit (what the model accepts for the regex `\d`). */
  predicate IsDigit(c: char) { '0' <= c <= '9' }

  predicate AllDigits(s: string) { forall i :: 0 <= i < |s| ==> IsDigit(s[i]) }

  function DigitValue(c: char): (d: nat)
    requires IsDigit(c)
    ensures d < 10
  {
    c as int - '0' as int
  }

  function DigitChar(d: nat): (c: char)
    requires d < 10
    ensures IsDigit(c) && DigitValue(c) == d
  {
    ('0' as int + d) as char
  }

  /** `10^k`. */
  function Pow10(k: nat): (p: nat)
    ensures p >= 1
  {
    if k == 0 then 1 else 10 * Pow10(k - 1)
  }

  /** `int(s)` for a string of ASCII digits, read most significant first; a
      string of `k` digits denotes a number below `10^k`. */
  function ParseDecimal(s: string): (n: nat)
    requires AllDigits(s)
    ensures n < Pow10(|s|)
  {
    if s == [] then 0 else ParseDecimal(s[..|s| - 1]) * 10 + DigitValue(s[|s| - 1])
  }

  /** The bound of `ParseDecimal` for the widths the clock format uses. */
  lemma ParseDecimalBound(s: string)
    requires AllDigits(s) && 1 <= |s| <= 2
    ensures |s| == 1 ==> ParseDecimal(s) < 10
    ensures ParseDecimal(s) < 100
  {
    assert s[..|s| - 1] == [] || ParseDecimal(s[..|s| - 1]) == DigitValue(s[0]);
  }

  // ---------------------------------------------------------------- f"{n}" and f"{n:02d}"

  /** `str(n)`: the decimal digits of `n`, most significant first, with no
      leading zero unless `n` is zero itself. */
  function DecimalString(n: nat): (r: string)
    ensures 1 <= |r| && AllDigits(r)
    ensures n > 0 ==> r[0] != '0'
    ensures n < 10 ==> |r| == 1
    ensures 10 <= n < 100 ==> |r| == 2
    decreases n
  {
    if n < 10 then [DigitChar(n)] else DecimalString(n / 10) + [DigitChar(n % 10)]
  }

  /** Reading back what `str(n)` wrote gives `n`. */
  lemma {:induction false} ParseDecimalString(n: nat)
    ensures ParseDecimal(DecimalString(n)) == n
    decreases n
  {
    var r := DecimalString(n);
    if n >= 10 {
      ParseDecimalString(n / 10);
      assert r[..|r| - 1] == DecimalString(n / 10);
    }
  }

  /** `f"{n:02d}"`: `n` in decimal, padded on the left with zeros to at least
      two characters. */
  function ZeroPad2(n: nat): (r: string)
    ensures AllDigits(r) && |r| >= 2
    ensures n < 100 ==> |r| == 2
  {
    if n < 10 then "0" + DecimalString(n) else DecimalString(n)
  }

  /** The value of a two-digit string: tens digit times ten plus units. */
  lemma ParseTwoDigits(t: string)
    requires |t| == 2 && AllDigits(t)
    ensures ParseDecimal(t) == DigitValue(t[0]) * 10 + DigitValue(t[1])
  {
    var front := t[..1];
    assert front[..0] == [] && front[0] == t[0];
    assert ParseDecimal(front) == DigitValue(t[0]);
  }

  /** Padding the value of a two-digit string gives back that very string:
      `f"{int(t):02d}" == t` for `t` in `"00".."99"`. */
  lemma ZeroPad2OfTwoDigits(t: string)
    requires |t| == 2 && AllDigits(t)
    ensures ParseDecimal(t) == DigitValue(t[0]) * 10 + DigitValue(t[1])
    ensures ZeroPad2(ParseDecimal(t)) == t
  {
    ParseTwoDigits(t);
    var d0, d1 := DigitValue(t[0]), DigitValue(t[1]);
    var n := d0 * 10 + d1;
    assert DigitChar(d0) == t[0] && DigitChar(d1) == t[1];
    if d0 == 0 {
      assert ZeroPad2(n) == [DigitChar(0), DigitChar(d1)];
    } else {
      assert n / 10 == d0 && n % 10 == d1;
      assert DecimalString(n) == DecimalString(d0) + [DigitChar(d1)];
    }
  }

  /** Reading back what `f"{n:02d}"` wrote gives `n`. */
  lemma ParseZeroPad2(n: nat)
    ensures ParseDecimal(ZeroPad2(n)) == n
  {
    ParseDecimalString(n);
    if n < 10 {
      var r := ZeroPad2(n);
      assert r[..1] == "0";
      assert r[1] == DigitChar(n);
    }
  }
}
