/** Normalisation and display formatting of IBAN text (`cleanIban`, `formatIban` and the `trim`
    that the indicator code applies first). */
module Utils {
  import opened Text

  /** `s.replace(/\s+/g, "")`: every white-space character removed, the rest kept in order. */
  function RemoveWhitespace(s: string): (r: string)
    ensures |r| <= |s|
    ensures forall i :: 0 <= i < |r| ==> !IsWhitespace(r[i])
  {
    if |s| == 0 then []
    else (if IsWhitespace(s[0]) then [] else [s[0]]) + RemoveWhitespace(s[1..])
  }

  /** Every character left by `RemoveWhitespace` comes from its input. */
  lemma {:induction false} RemoveWhitespaceFrom(s: string)
    ensures forall i :: 0 <= i < |RemoveWhitespace(s)| ==> RemoveWhitespace(s)[i] in s
    decreases |s|
  {
    if |s| > 0 {
      RemoveWhitespaceFrom(s[1..]);
      var head := if IsWhitespace(s[0]) then [] else [s[0]];
      var r, rest := RemoveWhitespace(s), RemoveWhitespace(s[1..]);
      assert r == head + rest;
      forall i | 0 <= i < |r|
        ensures r[i] in s
      {
        if i < |head| {
          assert r[i] == s[0];
        } else {
          assert r[i] == rest[i - |head|];
          assert rest[i - |head|] in s[1..];
        }
      }
    }
  }

  /** `s.toUpperCase()` on ASCII text. */
  function ToUpperString(s: string): (r: string)
    ensures |r| == |s|
  {
    seq(|s|, i requires 0 <= i < |s| => ToUpper(s[i]))
  }

  /** A string `cleanIban` leaves as it is: no white space and no lower-case letter. */
  predicate IsClean(s: string) {
    forall i :: 0 <= i < |s| ==> !IsWhitespace(s[i]) && !IsLower(s[i])
  }

  /** `cleanIban`: upper-case the text, then drop all white space. */
  function Clean(s: string): (r: string)
    ensures IsClean(r)
    ensures |r| <= |s|
  {
    RemoveWhitespaceFrom(ToUpperString(s));
    RemoveWhitespace(ToUpperString(s))
  }

  /** `String.prototype.trim`: leading and trailing white space removed. The result is one
      contiguous slice of the input, so white space inside the text is kept. */
  function Trim(s: string): (r: string)
    ensures |r| == 0 || (!IsWhitespace(r[0]) && !IsWhitespace(r[|r| - 1]))
    ensures exists k, m :: (0 <= k <= m <= |s| && r == s[k..m]
      && forall i :: 0 <= i < k || m <= i < |s| ==> IsWhitespace(s[i]))
    ensures RemoveWhitespace(r) == RemoveWhitespace(s)
  {
    TrimStartKeepsText(s);
    TrimEndKeepsText(TrimStart(s));
    var r := TrimEnd(TrimStart(s));
    var k := |s| - |TrimStart(s)|;
    TrimIsSlice(s);
    assert 0 <= k <= k + |r| <= |s| && r == s[k..k + |r|]
      && forall i :: 0 <= i < k || k + |r| <= i < |s| ==> IsWhitespace(s[i]);
    r
  }

  /** Trimming takes the slice between the leading and the trailing white space. */
  lemma TrimIsSlice(s: string)
    ensures var t := TrimStart(s);
      var r, k := TrimEnd(t), |s| - |t|;
      && 0 <= k <= k + |r| <= |s| && r == s[k..k + |r|]
      && forall i :: 0 <= i < k || k + |r| <= i < |s| ==> IsWhitespace(s[i])
  {
    var t := TrimStart(s);
    var r, k := TrimEnd(t), |s| - |t|;
    TrimStartIsSuffix(s);
    TrimEndIsPrefix(t);
    assert r == s[k..k + |r|];
    forall i | k + |r| <= i < |s|
      ensures IsWhitespace(s[i])
    {
      assert s[i] == t[i - k];
    }
  }

  /** Dropping the leading white space leaves a suffix, and only white space went. */
  lemma {:induction false} TrimStartIsSuffix(s: string)
    ensures |TrimStart(s)| <= |s|
    ensures TrimStart(s) == s[|s| - |TrimStart(s)|..]
    ensures forall i :: 0 <= i < |s| - |TrimStart(s)| ==> IsWhitespace(s[i])
    decreases |s|
  {
    if |s| > 0 && IsWhitespace(s[0]) {
      var t := TrimStart(s[1..]);
      TrimStartIsSuffix(s[1..]);
      assert s[1..][|s| - 1 - |t|..] == s[|s| - |t|..];
      forall i | 0 <= i < |s| - |t|
        ensures IsWhitespace(s[i])
      {
        if i > 0 {
          assert s[i] == s[1..][i - 1];
        }
      }
    }
  }

  /** Dropping the trailing white space leaves a prefix, and only white space went. */
  lemma {:induction false} TrimEndIsPrefix(s: string)
    ensures |TrimEnd(s)| <= |s|
    ensures TrimEnd(s) == s[..|TrimEnd(s)|]
    ensures forall i :: |TrimEnd(s)| <= i < |s| ==> IsWhitespace(s[i])
    decreases |s|
  {
    if |s| > 0 && IsWhitespace(s[|s| - 1]) {
      var init := s[..|s| - 1];
      var t := TrimEnd(init);
      TrimEndIsPrefix(init);
      assert init[..|t|] == s[..|t|];
      forall i | |t| <= i < |s|
        ensures IsWhitespace(s[i])
      {
        if i < |s| - 1 {
          assert s[i] == init[i];
        }
      }
    }
  }

  /** The input with its leading white space dropped: a suffix of it. */
  function TrimStart(s: string): (r: string)
    ensures |r| == 0 || !IsWhitespace(r[0])
    decreases |s|
  {
    if |s| > 0 && IsWhitespace(s[0]) then TrimStart(s[1..]) else s
  }

  /** The input with its trailing white space dropped: a prefix of it. */
  function TrimEnd(s: string): (r: string)
    ensures |r| == 0 || !IsWhitespace(r[|r| - 1])
    ensures |s| == 0 || !IsWhitespace(s[0]) ==> |r| == 0 || !IsWhitespace(r[0])
    decreases |s|
  {
    if |s| > 0 && IsWhitespace(s[|s| - 1]) then TrimEnd(s[..|s| - 1]) else s
  }

  /** `formatIban`: a 27-character cleaned IBAN in groups of 2, 2, 1, 5, 5 and 12 separated by single
      spaces (at positions 2, 5, 7, 13 and 19 of the 32-character result); any other cleaned text
      unchanged. The separators are the only white space: removing it gives the cleaned text back. */
  function FormatIban(s: string): (r: string)
    ensures |Clean(s)| != 27 ==> r == Clean(s)
    ensures |Clean(s)| == 27 ==>
      && |r| == 32
      && r[2] == ' ' && r[5] == ' ' && r[7] == ' ' && r[13] == ' ' && r[19] == ' '
      && RemoveWhitespace(r) == Clean(s)
  {
    var c := Clean(s);
    if |c| != 27 then c
    else
      GroupedKeepsText(c);
      Grouped(c)
  }

  /** The six groups of a 27-character IBAN joined by single spaces. */
  function Grouped(c: string): string
    requires |c| == 27
  {
    c[..2] + " " + c[2..4] + " " + c[4..5] + " " + c[5..10] + " " + c[10..15] + " " + c[15..]
  }

  lemma GroupedKeepsText(c: string)
    requires |c| == 27 && IsClean(c)
    ensures var r := Grouped(c);
      && |r| == 32
      && r[2] == ' ' && r[5] == ' ' && r[7] == ' ' && r[13] == ' ' && r[19] == ' '
      && RemoveWhitespace(r) == c
  {
    var g1, g2, g3, g4, g5, g6 := c[..2], c[2..4], c[4..5], c[5..10], c[10..15], c[15..];
    CleanSlice(c, 0, 2);
    CleanSlice(c, 2, 4);
    CleanSlice(c, 4, 5);
    CleanSlice(c, 5, 10);
    CleanSlice(c, 10, 15);
    CleanSlice(c, 15, 27);
    assert c[15..27] == g6;
    FormatKeepsText(g1, g2, g3, g4, g5, g6);
    FormatSeparators(g1, g2, g3, g4, g5, g6);
    assert c == g1 + g2 + g3 + g4 + g5 + g6;
  }

  /** A slice of clean text is clean. */
  lemma CleanSlice(c: string, lo: nat, hi: nat)
    requires IsClean(c) && lo <= hi <= |c|
    ensures IsClean(c[lo..hi])
  {
    forall i | 0 <= i < hi - lo
      ensures !IsWhitespace(c[lo..hi][i]) && !IsLower(c[lo..hi][i])
    {
      assert c[lo..hi][i] == c[lo + i];
    }
  }

  /** Removing the five separators of the display form gives back the six groups, joined. */
  lemma FormatKeepsText(g1: string, g2: string, g3: string, g4: string, g5: string, g6: string)
    requires IsClean(g1) && IsClean(g2) && IsClean(g3) && IsClean(g4) && IsClean(g5) && IsClean(g6)
    ensures RemoveWhitespace(g1 + " " + g2 + " " + g3 + " " + g4 + " " + g5 + " " + g6)
         == g1 + g2 + g3 + g4 + g5 + g6
  {
    NoWhitespaceUnchanged(g1);
    NoWhitespaceUnchanged(g2);
    NoWhitespaceUnchanged(g3);
    NoWhitespaceUnchanged(g4);
    NoWhitespaceUnchanged(g5);
    NoWhitespaceUnchanged(g6);
    var p2 := g1 + " " + g2;
    JoinedBySpace(g1, g2);
    var p3 := p2 + " " + g3;
    JoinedBySpace(p2, g3);
    var p4 := p3 + " " + g4;
    JoinedBySpace(p3, g4);
    var p5 := p4 + " " + g5;
    JoinedBySpace(p4, g5);
    JoinedBySpace(p5, g6);
  }

  /** The separators of the display form sit after 2, 4, 5, 10 and 15 characters of the IBAN. */
  lemma FormatSeparators(g1: string, g2: string, g3: string, g4: string, g5: string, g6: string)
    requires |g1| == 2 && |g2| == 2 && |g3| == 1 && |g4| == 5 && |g5| == 5
    ensures var r := g1 + " " + g2 + " " + g3 + " " + g4 + " " + g5 + " " + g6;
      r[2] == ' ' && r[5] == ' ' && r[7] == ' ' && r[13] == ' ' && r[19] == ' '
  {
    var p1 := g1 + " ";
    var p2 := p1 + g2 + " ";
    var p3 := p2 + g3 + " ";
    var p4 := p3 + g4 + " ";
    var p5 := p4 + g5 + " ";
    var r := p5 + g6;
    assert r == g1 + " " + g2 + " " + g3 + " " + g4 + " " + g5 + " " + g6;
    assert p1[2] == ' ';
    assert p2[2] == ' ' && p2[5] == ' ';
    assert p3[2] == ' ' && p3[5] == ' ' && p3[7] == ' ';
    assert p4[2] == ' ' && p4[5] == ' ' && p4[7] == ' ' && p4[13] == ' ';
    assert p5[2] == ' ' && p5[5] == ' ' && p5[7] == ' ' && p5[13] == ' ' && p5[19] == ' ';
  }

  lemma JoinedBySpace(a: string, b: string)
    ensures RemoveWhitespace(a + " " + b) == RemoveWhitespace(a) + RemoveWhitespace(b)
  {
    var sp := " ";
    assert RemoveWhitespace(sp) == [] by {
      assert sp[1..] == [];
    }
    RemoveWhitespaceConcat(a + sp, b);
    RemoveWhitespaceConcat(a, sp);
  }

  /** White-space removal works piecewise: on a concatenation it is the concatenation of the
      pieces' results. With `NoWhitespaceUnchanged` this fixes the result as the input's
      non-white-space characters in their order. */
  lemma {:induction false} RemoveWhitespaceConcat(a: string, b: string)
    ensures RemoveWhitespace(a + b) == RemoveWhitespace(a) + RemoveWhitespace(b)
    decreases |a|
  {
    if |a| == 0 {
      assert a + b == b;
    } else {
      assert (a + b)[1..] == a[1..] + b;
      RemoveWhitespaceConcat(a[1..], b);
    }
  }

  /** White-space removal leaves a text unchanged exactly when it has no white space. */
  lemma {:induction false} NoWhitespaceUnchanged(s: string)
    ensures RemoveWhitespace(s) == s <==> forall i :: 0 <= i < |s| ==> !IsWhitespace(s[i])
    decreases |s|
  {
    if |s| > 0 && forall i :: 0 <= i < |s| ==> !IsWhitespace(s[i]) {
      NoWhitespaceUnchanged(s[1..]);
      assert s == [s[0]] + s[1..];
    }
  }

  lemma {:induction false} TrimStartKeepsText(s: string)
    ensures RemoveWhitespace(TrimStart(s)) == RemoveWhitespace(s)
    decreases |s|
  {
    if |s| > 0 && IsWhitespace(s[0]) {
      TrimStartKeepsText(s[1..]);
    }
  }

  lemma {:induction false} TrimEndKeepsText(s: string)
    ensures RemoveWhitespace(TrimEnd(s)) == RemoveWhitespace(s)
    decreases |s|
  {
    if |s| > 0 && IsWhitespace(s[|s| - 1]) {
      var init := s[..|s| - 1];
      var last := [s[|s| - 1]];
      TrimEndKeepsText(init);
      assert s == init + last;
      RemoveWhitespaceConcat(init, last);
      assert last[1..] == [];
    }
  }

  /** Text that is already clean is a fixed point of `cleanIban`. */
  lemma CleanFixedPoint(s: string)
    requires IsClean(s)
    ensures Clean(s) == s
  {
    assert ToUpperString(s) == s;
    NoWhitespaceUnchanged(s);
  }

  /** `cleanIban` is idempotent. */
  lemma CleanIdempotent(s: string)
    ensures Clean(Clean(s)) == Clean(s)
  {
    CleanFixedPoint(Clean(s));
  }

  /** `cleanIban` keeps exactly the non-white-space characters of its input, upper-cased, in their
      original order: upper-casing first and removing white space first give the same text. */
  lemma {:induction false} CleanKeepsNonWhitespace(s: string)
    ensures Clean(s) == ToUpperString(RemoveWhitespace(s))
    decreases |s|
  {
    if |s| > 0 {
      CleanKeepsNonWhitespace(s[1..]);
      var u := ToUpperString(s);
      assert u[1..] == ToUpperString(s[1..]);
      assert IsWhitespace(u[0]) <==> IsWhitespace(s[0]);
      var head := if IsWhitespace(s[0]) then [] else [s[0]];
      assert RemoveWhitespace(s) == head + RemoveWhitespace(s[1..]);
      assert ToUpperString(head + RemoveWhitespace(s[1..]))
          == ToUpperString(head) + ToUpperString(RemoveWhitespace(s[1..]));
    }
  }

  /** Cleaning distributes over concatenation. */
  lemma CleanConcat(a: string, b: string)
    ensures Clean(a + b) == Clean(a) + Clean(b)
  {
    assert ToUpperString(a + b) == ToUpperString(a) + ToUpperString(b);
    RemoveWhitespaceConcat(ToUpperString(a), ToUpperString(b));
  }

  /** Trimming before cleaning, as the indicator code does, changes nothing. */
  lemma CleanAfterTrim(s: string)
    ensures Clean(Trim(s)) == Clean(s)
  {
    CleanKeepsNonWhitespace(Trim(s));
    CleanKeepsNonWhitespace(s);
  }

  /** Cleaning text whose white space was already removed gives the clean text of the original,
      and the white-space-free text is exactly as long as the clean text. */
  lemma CleanAfterRemoveWhitespace(s: string)
    ensures Clean(RemoveWhitespace(s)) == Clean(s)
    ensures |RemoveWhitespace(s)| == |Clean(s)|
  {
    CleanKeepsNonWhitespace(s);
    CleanKeepsNonWhitespace(RemoveWhitespace(s));
    NoWhitespaceUnchanged(RemoveWhitespace(s));
  }

  /** Round trip: cleaning the display form gives the cleaned input back. */
  lemma {:induction false} FormatRoundTrip(s: string)
    ensures Clean(FormatIban(s)) == Clean(s)
  {
    var c := Clean(s);
    if |c| != 27 {
      CleanIdempotent(s);
    } else {
      var r := FormatIban(s);
      CleanKeepsNonWhitespace(r);
      assert ToUpperString(c) == c;
    }
  }

  /** Text cleans to nothing exactly when every character of it is white space. */
  lemma {:induction false} CleanEmptyIffBlank(s: string)
    ensures |Clean(s)| == 0 <==> forall i :: 0 <= i < |s| ==> IsWhitespace(s[i])
    decreases |s|
  {
    CleanKeepsNonWhitespace(s);
    if |s| > 0 {
      CleanEmptyIffBlank(s[1..]);
      CleanKeepsNonWhitespace(s[1..]);
      assert forall i :: 1 <= i < |s| ==> s[i] == s[1..][i - 1];
    }
  }
}
