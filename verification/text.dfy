/** Characters, JavaScript string slicing and decimal numerals: the small vocabulary every other
    module of the IBAN checker is written in. Strings are `seq<char>`; only ASCII behaviour of the
    JavaScript built-ins is modelled. */
module Text {

  /** The ASCII characters that JavaScript's `\s` and `String.prototype.trim` treat as white space:
      tab, line feed, vertical tab, form feed, carriage return (9..13) and space. */
  predicate IsWhitespace(ch: char) {
    ch == ' ' || '\t' <= ch <= '\r'
  }

  predicate IsLower(ch: char) {
    'a' <= ch <= 'z'
  }

  predicate IsUpper(ch: char) {
    'A' <= ch <= 'Z'
  }

  /** `\d` of a JavaScript regular expression without the `u` flag: an ASCII digit. */
  predicate IsDigit(ch: char) {
    '0' <= ch <= '9'
  }

  /** The alphabet of a normalised IBAN: `[A-Z0-9]`. */
  predicate IsUpperAlnum(ch: char) {
    IsDigit(ch) || IsUpper(ch)
  }

  predicate AllDigits(s: string) {
    forall i :: 0 <= i < |s| ==> IsDigit(s[i])
  }

  /** `/^\d{n}$/.test(s)`: exactly `n` ASCII digits. */
  predicate IsDigitString(s: string, n: nat) {
    |s| == n && AllDigits(s)
  }

  /** `toUpperCase` on one ASCII character; every other character is left alone. */
  function ToUpper(ch: char): char {
    if IsLower(ch) then (ch as int - 32) as char else ch
  }

  function Min(a: int, b: int): int {
    if a <= b then a else b
  }

  /** `s.substring(start, end)` for non-negative bounds: both are clamped to the length and swapped
      when out of order. For ordered bounds this is also `s.slice(start, end)`. */
  function Substring(s: string, start: nat, end: nat): (r: string)
    ensures |r| <= |s|
    ensures start <= end <= |s| ==> r == s[start..end]
  {
    var lo := Min(start, |s|);
    var hi := Min(end, |s|);
    if lo <= hi then s[lo..hi] else s[hi..lo]
  }

  function DigitValue(ch: char): nat
    requires IsDigit(ch)
  {
    ch as int - '0' as int
  }

  function DigitChar(d: nat): (ch: char)
    requires d < 10
    ensures IsDigit(ch) && DigitValue(ch) == d
  {
    ('0' as int + d) as char
  }

  function Pow10(k: nat): (p: nat)
    ensures p >= 1
  {
    if k == 0 then 1 else 10 * Pow10(k - 1)
  }

  /** The value of a decimal numeral, most significant digit first (leading zeros allowed). */
  function Value(s: string): nat
    requires AllDigits(s)
  {
    if |s| == 0 then 0 else 10 * Value(s[..|s| - 1]) + DigitValue(s[|s| - 1])
  }

  /** `n.toString()` for a non-negative integer: the shortest numeral denoting `n`. */
  function DecimalString(n: nat): (s: string)
    ensures |s| >= 1 && AllDigits(s)
    ensures Value(s) == n
    ensures s[0] == '0' <==> n == 0
    ensures n < 10 ==> |s| == 1
    ensures 10 <= n < 100 ==> |s| == 2
  {
    if n < 10 then
      [DigitChar(n)]
    else
      var init := DecimalString(n / 10);
      var s := init + [DigitChar(n % 10)];
      assert s[..|s| - 1] == init;
      s
  }

  /** The longest prefix of `s` made of ASCII digits. */
  function DigitPrefix(s: string): (p: string)
    ensures AllDigits(p) && p <= s
    ensures |p| == |s| || !IsDigit(s[|p|])
  {
    if |s| == 0 || !IsDigit(s[0]) then [] else [s[0]] + DigitPrefix(s[1..])
  }

  /** `parseInt(s, 10)` for a string that starts with a digit: the value of its leading run of
      digits, whatever follows that run. */
  function ParseLeadingDigits(s: string): nat {
    Value(DigitPrefix(s))
  }

  lemma {:induction false} Pow10Add(a: nat, b: nat)
    ensures Pow10(a + b) == Pow10(a) * Pow10(b)
    decreases b
  {
    if b > 0 {
      Pow10Add(a, b - 1);
      calc {
        Pow10(a + b);
        10 * Pow10(a + b - 1);
        10 * (Pow10(a) * Pow10(b - 1));
        Pow10(a) * (10 * Pow10(b - 1));
        Pow10(a) * Pow10(b);
      }
    }
  }

  /** Appending digits shifts the value: the numeral `a + b` denotes `a·10^|b| + b`. */
  lemma {:induction false} ValueConcat(a: string, b: string)
    requires AllDigits(a) && AllDigits(b)
    ensures AllDigits(a + b)
    ensures Value(a + b) == Value(a) * Pow10(|b|) + Value(b)
    decreases |b|
  {
    if |b| == 0 {
      assert a + b == a;
    } else {
      var b' := b[..|b| - 1];
      var d := DigitValue(b[|b| - 1]);
      ValueConcat(a, b');
      assert (a + b)[..|a + b| - 1] == a + b';
      assert (a + b)[|a + b| - 1] == b[|b| - 1];
      assert Value(a + b) == 10 * Value(a + b') + d;
      assert Value(b) == 10 * Value(b') + d;
      ShiftStep(Value(a), Pow10(|b'|), Value(b'), d);
    }
  }

  /** `10·(x·p + y) + d == x·(10·p) + (10·y + d)`, kept apart so that the solver sees it alone. */
  lemma ShiftStep(x: nat, p: nat, y: nat, d: nat)
    ensures 10 * (x * p + y) + d == x * (10 * p) + (10 * y + d)
  {
  }

  /** The digit run at the front of `a + b` extends through all of an all-digit `a`. */
  lemma {:induction false} DigitPrefixAfterDigits(a: string, b: string)
    requires AllDigits(a)
    ensures DigitPrefix(a + b) == a + DigitPrefix(b)
    decreases |a|
  {
    if |a| == 0 {
      assert a + b == b;
    } else {
      assert (a + b)[1..] == a[1..] + b;
      DigitPrefixAfterDigits(a[1..], b);
      assert a == [a[0]] + a[1..];
    }
  }

  /** What `parseInt(r.toString() + chunk, 10)` computes: the remainder shifted left by the digits at
      the front of `chunk`, plus their value. */
  lemma ParseAfterNumber(r: nat, chunk: string)
    ensures ParseLeadingDigits(DecimalString(r) + chunk)
         == r * Pow10(|DigitPrefix(chunk)|) + Value(DigitPrefix(chunk))
  {
    DigitPrefixAfterDigits(DecimalString(r), chunk);
    ValueConcat(DecimalString(r), DigitPrefix(chunk));
  }

  /** Every digit string is its own leading digit run. */
  lemma {:induction false} DigitPrefixOfDigits(s: string)
    requires AllDigits(s)
    ensures DigitPrefix(s) == s
  {
    DigitPrefixAfterDigits(s, []);
    assert s + [] == s;
  }
}
