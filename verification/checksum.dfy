/** The mod-97 check of `isIbanValid`: the ISO 13616-1 check-digit validation with the MOD 97-10
    scheme of ISO/IEC 7064, computed as `isIbanValid` does it, on 7-digit blocks of the numeral. */
module Checksum {
  import opened Text
  import opened Utils

  /** `iban.slice(4) + iban.slice(0, 4)`: the country code and check digits moved to the end. */
  function Rearrange(c: string): (r: string)
    ensures |r| == |c|
    ensures |c| >= 4 ==> r == c[4..] + c[..4]
    ensures |c| < 4 ==> r == c
  {
    Substring(c, 4, |c|) + Substring(c, 0, 4)
  }

  /** One character of the expansion loop: a letter `A`..`Z` becomes `(code - 55).toString()`,
      anything else is copied. */
  function ExpandChar(ch: char): string {
    if IsUpper(ch) then DecimalString(ch as int - 55) else [ch]
  }

  /** The expansion loop over the whole rearranged string. */
  function Expand(s: string): string {
    if |s| == 0 then [] else ExpandChar(s[0]) + Expand(s[1..])
  }

  /** The number of characters each pass of the reduction loop takes. */
  const BlockSize: nat := 7

  /** One pass of the reduction loop: `parseInt(remainder.toString() + chunk, 10) % 97`. */
  function BlockStep(r: nat, chunk: string): (next: nat)
    ensures next < 97
  {
    ParseLeadingDigits(DecimalString(r) + chunk) % 97
  }

  /** The reduction loop from remainder `r` over the rest `e` of the expanded string, 7 characters
      at a time (`substring(i, i + 7)` takes fewer at the end). */
  function BlockRemainder(r: nat, e: string): (rem: nat)
    ensures r < 97 ==> rem < 97
    ensures |e| > 0 ==> rem < 97
    decreases |e|
  {
    if |e| == 0 then r
    else
      var k := Min(BlockSize, |e|);
      BlockRemainder(BlockStep(r, e[..k]), e[k..])
  }

  /** `isIbanValid`: clean, rearrange, expand, reduce from remainder 0, and compare with 1. */
  predicate IsIbanValid(raw: string) {
    BlockRemainder(0, Expand(Rearrange(Clean(raw)))) == 1
  }

  /** Letters expand to the two-digit numerals "10".."35" for A..Z; digits pass through. */
  lemma ExpandLetterOrDigit(ch: char)
    requires IsUpperAlnum(ch)
    ensures AllDigits(ExpandChar(ch))
    ensures IsUpper(ch) ==> |ExpandChar(ch)| == 2 && Value(ExpandChar(ch)) == ch as int - 'A' as int + 10
    ensures IsDigit(ch) ==> ExpandChar(ch) == [ch]
  {
  }

  lemma {:induction false} ExpandConcat(a: string, b: string)
    ensures Expand(a + b) == Expand(a) + Expand(b)
    decreases |a|
  {
    if |a| == 0 {
      assert a + b == b;
    } else {
      assert (a + b)[1..] == a[1..] + b;
      ExpandConcat(a[1..], b);
    }
  }

  /** The expansion of text over `[A-Z0-9]` is a numeral. */
  lemma {:induction false} ExpandIsNumeral(s: string)
    requires forall i :: 0 <= i < |s| ==> IsUpperAlnum(s[i])
    ensures AllDigits(Expand(s))
    decreases |s|
  {
    if |s| > 0 {
      ExpandLetterOrDigit(s[0]);
      ExpandIsNumeral(s[1..]);
    }
  }

  /** `((a mod 97)·m + b) mod 97 == (a·m + b) mod 97`: carrying only the remainder forward loses
      nothing. */
  lemma ModCarry(a: nat, m: nat, b: nat)
    ensures ((a % 97) * m + b) % 97 == (a * m + b) % 97
  {
    var q := a / 97;
    var x := (a % 97) * m + b;
    assert a == 97 * q + a % 97;
    assert a * m == 97 * (q * m) + (a % 97) * m by {
      assert a * m == (97 * q + a % 97) * m;
    }
    ModAddMultiple(x, q * m);
  }

  lemma ModAddMultiple(x: nat, k: nat)
    ensures (97 * k + x) % 97 == x % 97
  {
  }

  /** Each pass of the loop: the parsed value is the remainder shifted past the chunk plus the
      chunk's value, reduced mod 97. */
  lemma {:induction false} BlockStepValue(r: nat, chunk: string)
    requires AllDigits(chunk)
    ensures BlockStep(r, chunk) == (r * Pow10(|chunk|) + Value(chunk)) % 97
  {
    var text := DecimalString(r) + chunk;
    var p := DigitPrefix(chunk);
    ParseAfterNumber(r, chunk);
    DigitPrefixOfDigits(chunk);
    assert p == chunk;
    var v := ParseLeadingDigits(text);
    var w := r * Pow10(|chunk|) + Value(chunk);
    assert v == w;
    assert BlockStep(r, chunk) == v % 97;
    assert v % 97 == w % 97;
  }

  /** The block-wise reduction computes the remainder of the whole numeral: started from a
      remainder `r < 97` in front of the digits `e`, it ends with `(r·10^|e| + e) mod 97`. */
  lemma {:induction false} BlockReduction(r: nat, e: string)
    requires r < 97 && AllDigits(e)
    ensures BlockRemainder(r, e) == (r * Pow10(|e|) + Value(e)) % 97
    decreases |e|
  {
    if |e| > 0 {
      var k := Min(BlockSize, |e|);
      var chunk, rest := e[..k], e[k..];
      assert e == chunk + rest;
      assert AllDigits(chunk) && AllDigits(rest);
      var next := BlockStep(r, chunk);
      assert BlockRemainder(r, e) == BlockRemainder(next, rest);
      BlockStepValue(r, chunk);
      BlockReduction(next, rest);
      CarryPastChunk(r, chunk, rest);
    }
  }

  /** Carrying the remainder of the first chunk into the rest gives the remainder of the whole. */
  lemma CarryPastChunk(r: nat, chunk: string, rest: string)
    requires AllDigits(chunk) && AllDigits(rest)
    ensures (((r * Pow10(|chunk|) + Value(chunk)) % 97) * Pow10(|rest|) + Value(rest)) % 97
         == (r * Pow10(|chunk + rest|) + Value(chunk + rest)) % 97
  {
    var p, q, v, w := Pow10(|chunk|), Pow10(|rest|), Value(chunk), Value(rest);
    ValueConcat(chunk, rest);
    Pow10Add(|chunk|, |rest|);
    assert Pow10(|chunk + rest|) == p * q;
    assert Value(chunk + rest) == v * q + w;
    CarryAlgebra(r, p, q, v, w);
  }

  /** `(((r·p + v) mod 97)·q + w) mod 97 == (r·(p·q) + (v·q + w)) mod 97`. */
  lemma CarryAlgebra(r: nat, p: nat, q: nat, v: nat, w: nat)
    ensures (((r * p + v) % 97) * q + w) % 97 == (r * (p * q) + (v * q + w)) % 97
  {
    ModCarry(r * p + v, q, w);
    ShiftPast(r, p, q, v, w);
  }

  /** `(r·p + v)·q + w == r·(p·q) + (v·q + w)`. */
  lemma ShiftPast(r: nat, p: nat, q: nat, v: nat, w: nat)
    ensures (r * p + v) * q + w == r * (p * q) + (v * q + w)
  {
  }

  /** `isIbanValid` holds exactly when the rearranged, expanded IBAN, read as one decimal number, is
      congruent to 1 modulo 97 (for cleaned text over `[A-Z0-9]`, which makes the expansion a
      numeral). */
  lemma IsIbanValidIffMod97(raw: string)
    requires forall i :: 0 <= i < |Clean(raw)| ==> IsUpperAlnum(Clean(raw)[i])
    ensures AllDigits(Expand(Rearrange(Clean(raw))))
    ensures IsIbanValid(raw) <==> Value(Expand(Rearrange(Clean(raw)))) % 97 == 1
  {
    var c := Clean(raw);
    var e := Rearrange(c);
    RearrangeKeepsAlphabet(c);
    ExpandIsNumeral(e);
    var x := Expand(e);
    BlockReduction(0, x);
    assert 0 * Pow10(|x|) + Value(x) == Value(x);
  }

  /** Rearranging only moves characters, so it keeps text inside `[A-Z0-9]`. */
  lemma RearrangeKeepsAlphabet(c: string)
    requires forall i :: 0 <= i < |c| ==> IsUpperAlnum(c[i])
    ensures forall i :: 0 <= i < |Rearrange(c)| ==> IsUpperAlnum(Rearrange(c)[i])
  {
    if |c| >= 4 {
      var e := Rearrange(c);
      assert e == c[4..] + c[..4];
      forall i | 0 <= i < |e|
        ensures IsUpperAlnum(e[i])
      {
        if i < |c| - 4 {
          assert e[i] == c[i + 4];
        } else {
          assert e[i] == c[i - (|c| - 4)];
        }
      }
    }
  }
}
