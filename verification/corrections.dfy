/** `findCorrections`: every text one edit away from the cleaned input (a single character replaced
    by one of `[0-9A-Z]`, or two characters exchanged) that passes `isValidComplete`, without
    duplicates and in the order the search first meets them. The search is given twice: as a
    functional enumeration, and as the loops of `findCorrections` over a character array, proved equal. */
module Corrections {
  import opened Text
  import opened Utils
  import opened Data
  import opened Validators

  /** The characters tried at each position, in the order they are tried. */
  const ValidChars: string := "0123456789ABCDEFGHIJKLMNOPQRSTUVWXYZ"

  /** `s.slice(0, i) + ch + s.slice(i + 1)`. */
  function Replace(s: string, i: nat, ch: char): (t: string)
    requires i < |s|
    ensures |t| == |s|
  {
    s[..i] + [ch] + s[i + 1..]
  }

  /** The replacement puts `ch` at `i` and keeps every other character. */
  lemma ReplaceSpec(s: string, i: nat, ch: char)
    requires i < |s|
    ensures Replace(s, i, ch)[i] == ch
    ensures forall k :: 0 <= k < |s| && k != i ==> Replace(s, i, ch)[k] == s[k]
  {
  }

  /** The array after `[arr[i], arr[j]] = [arr[j], arr[i]]`. */
  function Swap(s: string, i: nat, j: nat): (t: string)
    requires i < |s| && j < |s|
    ensures |t| == |s|
  {
    s[i := s[j]][j := s[i]]
  }

  /** The exchange moves the two characters and keeps every other one. */
  lemma SwapSpec(s: string, i: nat, j: nat)
    requires i < |s| && j < |s|
    ensures Swap(s, i, j)[i] == s[j] && Swap(s, i, j)[j] == s[i]
    ensures forall k :: 0 <= k < |s| && k != i && k != j ==> Swap(s, i, j)[k] == s[k]
  {
  }

  /** `t` differs from `s` in exactly one position, and holds a character of `chars` there. */
  predicate IsSubstitutionFrom(chars: string, s: string, t: string) {
    && |t| == |s|
    && exists i :: 0 <= i < |s| && t[i] != s[i] && t[i] in chars
         && (forall k :: 0 <= k < |s| && k != i ==> t[k] == s[k])
  }

  /** `t` differs from `s` in exactly one position, and holds a character of `[0-9A-Z]` there. */
  predicate IsSubstitution(s: string, t: string) {
    IsSubstitutionFrom(ValidChars, s, t)
  }

  /** `t` is `s` with the characters at two distinct positions exchanged (the same text when the two
      characters are equal). */
  predicate IsSwapOf(s: string, t: string) {
    && |t| == |s|
    && exists i, j :: 0 <= i < j < |s| && t[i] == s[j] && t[j] == s[i]
         && (forall k :: 0 <= k < |s| && k != i && k != j ==> t[k] == s[k])
  }

  /** The substitution candidates at position `i` for the first `k` characters of `chars`, the
      character already there skipped. */
  function SubstitutionsAt(chars: string, s: string, i: nat, k: nat): seq<string>
    requires i < |s| && k <= |chars|
  {
    if k == 0 then []
    else
      var ch := chars[k - 1];
      SubstitutionsAt(chars, s, i, k - 1) + (if ch == s[i] then [] else [Replace(s, i, ch)])
  }

  /** The substitution candidates from `chars` of the first `n` positions, position by position. */
  function SubstitutionsBefore(chars: string, s: string, n: nat): seq<string>
    requires n <= |s|
  {
    if n == 0 then [] else SubstitutionsBefore(chars, s, n - 1) + SubstitutionsAt(chars, s, n - 1, |chars|)
  }

  /** The swap candidates pairing position `i` with positions `i + 1 .. j - 1`. */
  function SwapsRow(s: string, i: nat, j: nat): seq<string>
    requires i < |s| && j <= |s|
  {
    if j <= i + 1 then [] else SwapsRow(s, i, j - 1) + [Swap(s, i, j - 1)]
  }

  /** The swap candidates whose first position is below `n`. */
  function SwapsBefore(s: string, n: nat): seq<string>
    requires n <= |s|
  {
    if n == 0 then [] else SwapsBefore(s, n - 1) + SwapsRow(s, n - 1, |s|)
  }

  /** Every candidate of the search, in the order it is generated. */
  function Candidates(s: string): seq<string> {
    SubstitutionsBefore(ValidChars, s, |s|) + SwapsBefore(s, |s|)
  }

  predicate NoDuplicates(r: seq<string>) {
    forall i, j :: 0 <= i < j < |r| ==> r[i] != r[j]
  }

  /** `Array.from` of a `Set` fed the valid candidates in order: each valid candidate once, at the
      place of its first occurrence. */
  function Collect(valid: string -> bool, xs: seq<string>): seq<string>
    decreases |xs|
  {
    if |xs| == 0 then []
    else
      var r := Collect(valid, xs[..|xs| - 1]);
      var x := xs[|xs| - 1];
      if valid(x) && x !in r then r + [x] else r
  }

  /** The collected results are the valid candidates, each once. */
  lemma {:induction false} CollectExact(valid: string -> bool, xs: seq<string>)
    ensures forall t :: t in Collect(valid, xs) <==> t in xs && valid(t)
    ensures NoDuplicates(Collect(valid, xs))
    decreases |xs|
  {
    if |xs| > 0 {
      var init, x := xs[..|xs| - 1], xs[|xs| - 1];
      assert xs == init + [x];
      CollectExact(valid, init);
    }
  }

  /** `findCorrections`. */
  function FindCorrections(d: Directory, raw: string): seq<string> {
    Collect(Accepts(d), Candidates(Clean(raw)))
  }

  /** The test the search applies: `isValidComplete` under the directory `d`. */
  function Accepts(d: Directory): string -> bool {
    t => IsValidComplete(d, t)
  }

  /** The collected results of a prefix of the candidates stay a prefix of the results. */
  lemma {:induction false} CollectPrefix(valid: string -> bool, a: seq<string>, b: seq<string>)
    ensures |Collect(valid, a)| <= |Collect(valid, a + b)|
    ensures Collect(valid, a + b)[..|Collect(valid, a)|] == Collect(valid, a)
    decreases |b|
  {
    if |b| == 0 {
      assert a + b == a;
    } else {
      var init := b[..|b| - 1];
      assert (a + b)[..|a + b| - 1] == a + init;
      CollectPrefix(valid, a, init);
    }
  }

  lemma {:induction false} SubstitutionsAtSound(chars: string, s: string, i: nat, k: nat)
    requires i < |s| && k <= |chars|
    ensures forall t :: t in SubstitutionsAt(chars, s, i, k) ==> IsSubstitutionFrom(chars, s, t)
    decreases k
  {
    if k > 0 {
      SubstitutionsAtSound(chars, s, i, k - 1);
      var ch := chars[k - 1];
      if ch != s[i] {
        var t := Replace(s, i, ch);
        ReplaceSpec(s, i, ch);
        assert t[i] != s[i] && t[i] in chars;
      }
    }
  }

  lemma {:induction false} SubstitutionsAtComplete(chars: string, s: string, i: nat, k: nat, m: nat)
    requires i < |s| && m < k <= |chars| && chars[m] != s[i]
    ensures Replace(s, i, chars[m]) in SubstitutionsAt(chars, s, i, k)
    decreases k
  {
    if m < k - 1 {
      SubstitutionsAtComplete(chars, s, i, k - 1, m);
    }
  }

  lemma {:induction false} SubstitutionsBeforeSound(chars: string, s: string, n: nat)
    requires n <= |s|
    ensures forall t :: t in SubstitutionsBefore(chars, s, n) ==> IsSubstitutionFrom(chars, s, t)
    decreases n
  {
    if n > 0 {
      SubstitutionsBeforeSound(chars, s, n - 1);
      SubstitutionsAtSound(chars, s, n - 1, |chars|);
    }
  }

  lemma {:induction false} SubstitutionsBeforeComplete(chars: string, s: string, n: nat, i: nat, m: nat)
    requires i < n <= |s| && m < |chars| && chars[m] != s[i]
    ensures Replace(s, i, chars[m]) in SubstitutionsBefore(chars, s, n)
    decreases n
  {
    var t := Replace(s, i, chars[m]);
    var earlier, row := SubstitutionsBefore(chars, s, n - 1), SubstitutionsAt(chars, s, n - 1, |chars|);
    assert SubstitutionsBefore(chars, s, n) == earlier + row;
    if i < n - 1 {
      SubstitutionsBeforeComplete(chars, s, n - 1, i, m);
      assert t in earlier;
    } else {
      SubstitutionsAtComplete(chars, s, i, |chars|, m);
      assert t in row;
    }
  }

  lemma {:induction false} SwapsRowSound(s: string, i: nat, j: nat)
    requires i < |s| && j <= |s|
    ensures forall t :: t in SwapsRow(s, i, j) ==> IsSwapOf(s, t)
    decreases j
  {
    if j > i + 1 {
      SwapsRowSound(s, i, j - 1);
      var t := Swap(s, i, j - 1);
      SwapSpec(s, i, j - 1);
      assert t[i] == s[j - 1] && t[j - 1] == s[i];
    }
  }

  lemma {:induction false} SwapsRowComplete(s: string, i: nat, j: nat, k: nat)
    requires i < k < j <= |s|
    ensures Swap(s, i, k) in SwapsRow(s, i, j)
    decreases j
  {
    if k < j - 1 {
      SwapsRowComplete(s, i, j - 1, k);
    }
  }

  lemma {:induction false} SwapsBeforeSound(s: string, n: nat)
    requires n <= |s|
    ensures forall t :: t in SwapsBefore(s, n) ==> IsSwapOf(s, t)
    decreases n
  {
    if n > 0 {
      SwapsBeforeSound(s, n - 1);
      SwapsRowSound(s, n - 1, |s|);
    }
  }

  lemma {:induction false} SwapsBeforeComplete(s: string, n: nat, i: nat, k: nat)
    requires i < n <= |s| && i < k < |s|
    ensures Swap(s, i, k) in SwapsBefore(s, n)
    decreases n
  {
    if i < n - 1 {
      SwapsBeforeComplete(s, n - 1, i, k);
    } else {
      SwapsRowComplete(s, i, |s|, k);
    }
  }

  /** A one-position substitution is one of the substitution candidates. */
  lemma SubstitutionIsCandidate(chars: string, s: string, t: string)
    requires IsSubstitutionFrom(chars, s, t)
    ensures t in SubstitutionsBefore(chars, s, |s|)
  {
    var i :| 0 <= i < |s| && t[i] != s[i] && t[i] in chars
      && (forall k :: 0 <= k < |s| && k != i ==> t[k] == s[k]);
    var m :| 0 <= m < |chars| && chars[m] == t[i];
    ReplaceAt(s, t, i);
    SubstitutionsBeforeComplete(chars, s, |s|, i, m);
  }

  /** A text that agrees with `s` except at `i` is `s` with its own character put at `i`. */
  lemma ReplaceAt(s: string, t: string, i: nat)
    requires |t| == |s| && i < |s|
    requires forall k :: 0 <= k < |s| && k != i ==> t[k] == s[k]
    ensures t == Replace(s, i, t[i])
  {
    var r := Replace(s, i, t[i]);
    ReplaceSpec(s, i, t[i]);
    assert forall k :: 0 <= k < |s| ==> r[k] == t[k];
  }

  /** An exchange of two positions is one of the swap candidates. */
  lemma SwapIsCandidate(s: string, t: string)
    requires IsSwapOf(s, t)
    ensures t in SwapsBefore(s, |s|)
  {
    var i, j :| 0 <= i < j < |s| && t[i] == s[j] && t[j] == s[i]
      && (forall k :: 0 <= k < |s| && k != i && k != j ==> t[k] == s[k]);
    SwapSpec(s, i, j);
    assert t == Swap(s, i, j);
    SwapsBeforeComplete(s, |s|, i, j);
  }

  /** The candidates are exactly the single substitutions and the single exchanges. */
  lemma CandidatesExact(s: string, t: string)
    ensures t in Candidates(s) <==> IsSubstitution(s, t) || IsSwapOf(s, t)
  {
    SubstitutionsBeforeSound(ValidChars, s, |s|);
    SwapsBeforeSound(s, |s|);
    if IsSubstitution(s, t) {
      SubstitutionIsCandidate(ValidChars, s, t);
    }
    if IsSwapOf(s, t) {
      SwapIsCandidate(s, t);
    }
  }

  /** An exchange never counts as a substitution: every position it changes has a second changed
      position beside it. */
  lemma SwapIsNotSubstitution(s: string, t: string)
    requires IsSwapOf(s, t)
    ensures !IsSubstitution(s, t)
  {
    var i, j :| 0 <= i < j < |s| && t[i] == s[j] && t[j] == s[i]
      && (forall k :: 0 <= k < |s| && k != i && k != j ==> t[k] == s[k]);
    forall p | 0 <= p < |s| && t[p] != s[p]
      ensures exists q :: 0 <= q < |s| && q != p && t[q] != s[q]
    {
      if p == i {
        assert t[j] != s[j];
      } else {
        assert t[i] != s[i];
      }
    }
  }

  /** The corrections are exactly the completely valid texts one substitution or one exchange away
      from the cleaned input, each listed once. */
  lemma FindCorrectionsExact(d: Directory, raw: string, t: string)
    ensures t in FindCorrections(d, raw) <==>
      IsValidComplete(d, t) && (IsSubstitution(Clean(raw), t) || IsSwapOf(Clean(raw), t))
    ensures NoDuplicates(FindCorrections(d, raw))
  {
    CandidatesExact(Clean(raw), t);
    CollectExact(Accepts(d), Candidates(Clean(raw)));
  }

  /** A cleaned input that fails `isValidComplete` is never offered as its own correction. */
  lemma InputNeverListed(d: Directory, raw: string)
    requires !IsValidComplete(d, Clean(raw))
    ensures Clean(raw) !in FindCorrections(d, raw)
  {
    FindCorrectionsExact(d, raw, Clean(raw));
  }

  /** An entry past the results of the first candidate list came from the second one. */
  lemma LaterEntriesFromSecond(valid: string -> bool, a: seq<string>, b: seq<string>, j: nat)
    requires |Collect(valid, a)| <= j < |Collect(valid, a + b)|
    ensures Collect(valid, a + b)[j] in b
  {
    var p, r := Collect(valid, a), Collect(valid, a + b);
    CollectPrefix(valid, a, b);
    CollectExact(valid, a + b);
    CollectExact(valid, a);
    forall k | 0 <= k < |p|
      ensures p[k] != r[j]
    {
      assert r[k] == p[k];
    }
    assert r[j] !in p;
    assert r[j] in a + b;
  }

  /** Substitutions are listed before exchanges: once a correction is not a substitution, none after
      it is one. */
  lemma SubstitutionsComeFirst(d: Directory, raw: string, i: nat, j: nat)
    requires i < j < |FindCorrections(d, raw)|
    requires IsSubstitution(Clean(raw), FindCorrections(d, raw)[j])
    ensures IsSubstitution(Clean(raw), FindCorrections(d, raw)[i])
  {
    var c := Clean(raw);
    var subs, swaps := SubstitutionsBefore(ValidChars, c, |c|), SwapsBefore(c, |c|);
    var p := Collect(Accepts(d), subs);
    CollectPrefix(Accepts(d), subs, swaps);
    CollectExact(Accepts(d), subs);
    SubstitutionsBeforeSound(ValidChars, c, |c|);
    if |p| <= i {
      LaterEntriesFromSecond(Accepts(d), subs, swaps, j);
      SwapsBeforeSound(c, |c|);
      SwapIsNotSubstitution(c, FindCorrections(d, raw)[j]);
    } else {
      assert FindCorrections(d, raw)[i] == p[i];
    }
  }

  /** One more candidate: the `Set` gains it when it is valid and new. */
  lemma CollectSnoc(valid: string -> bool, xs: seq<string>, x: string)
    ensures Collect(valid, xs + [x]) ==
      if valid(x) && x !in Collect(valid, xs) then Collect(valid, xs) + [x] else Collect(valid, xs)
  {
    assert (xs + [x])[..|xs|] == xs;
  }

  /** `if (isValidComplete(candidate)) results.add(candidate)` on the results of the candidates
      `seen` so far. */
  method Offer(valid: string -> bool, ghost seen: seq<string>, results: seq<string>, candidate: string)
    returns (next: seq<string>)
    requires results == Collect(valid, seen)
    ensures next == Collect(valid, seen + [candidate])
  {
    CollectSnoc(valid, seen, candidate);
    if valid(candidate) && candidate !in results {
      next := results + [candidate];
    } else {
      next := results;
    }
  }

  /** The substitution loops: every position, every character of `chars` but the one there. */
  method SubstitutionPass(valid: string -> bool, chars: string, c: string) returns (results: seq<string>)
    ensures results == Collect(valid, SubstitutionsBefore(chars, c, |c|))
  {
    results := [];
    var i := 0;
    while i < |c|
      invariant 0 <= i <= |c|
      invariant results == Collect(valid, SubstitutionsBefore(chars, c, i))
    {
      results := SubstitutionRow(valid, chars, c, i, SubstitutionsBefore(chars, c, i), results);
      assert SubstitutionsBefore(chars, c, i + 1) == SubstitutionsBefore(chars, c, i) + SubstitutionsAt(chars, c, i, |chars|);
      i := i + 1;
    }
    assert i == |c|;
  }

  /** The inner substitution loop at position `i`, continuing the results of the candidates
      `prior`. */
  method SubstitutionRow(valid: string -> bool, chars: string, c: string, i: nat, ghost prior: seq<string>, start: seq<string>)
    returns (results: seq<string>)
    requires i < |c|
    requires start == Collect(valid, prior)
    ensures results == Collect(valid, prior + SubstitutionsAt(chars, c, i, |chars|))
  {
    results := start;
    ghost var seen := prior;
    var k := 0;
    while k < |chars|
      invariant 0 <= k <= |chars|
      invariant seen == prior + SubstitutionsAt(chars, c, i, k)
      invariant results == Collect(valid, seen)
    {
      var ch := chars[k];
      SubstitutionsAtStep(chars, c, prior, i, k);
      if ch != c[i] {
        var candidate := c[..i] + [ch] + c[i + 1..];
        results := Offer(valid, seen, results, candidate);
        seen := seen + [candidate];
      }
      k := k + 1;
    }
  }

  lemma SubstitutionsAtStep(chars: string, c: string, prior: seq<string>, i: nat, k: nat)
    requires i < |c| && k < |chars|
    ensures chars[k] == c[i] ==> SubstitutionsAt(chars, c, i, k + 1) == SubstitutionsAt(chars, c, i, k)
    ensures chars[k] != c[i] ==>
      prior + SubstitutionsAt(chars, c, i, k) + [Replace(c, i, chars[k])] == prior + SubstitutionsAt(chars, c, i, k + 1)
  {
    var row, ch := SubstitutionsAt(chars, c, i, k), chars[k];
    assert SubstitutionsAt(chars, c, i, k + 1) == row + (if ch == c[i] then [] else [Replace(c, i, ch)]);
    if ch != c[i] {
      assert (prior + row) + [Replace(c, i, ch)] == prior + (row + [Replace(c, i, ch)]);
    }
  }

  /** The exchange loops on the character array `iban.split('')`, continuing the results of the
      candidates `prior`: exchange, test the joined text, exchange back. */
  method SwapPass(valid: string -> bool, c: string, ghost prior: seq<string>, start: seq<string>) returns (results: seq<string>)
    requires start == Collect(valid, prior)
    ensures results == Collect(valid, prior + SwapsBefore(c, |c|))
  {
    results := start;
    assert prior + SwapsBefore(c, 0) == prior;
    var arr := c;
    var i := 0;
    while i < |arr| - 1
      invariant 0 <= i <= |c|
      invariant |c| > 0 ==> i <= |c| - 1
      invariant arr == c
      invariant results == Collect(valid, prior + SwapsBefore(c, i))
    {
      arr, results := SwapRow(valid, arr, i, prior + SwapsBefore(c, i), results);
      SwapsBeforeStep(c, prior, i);
      i := i + 1;
    }
    SwapsBeforeLast(c, i);
  }

  /** The inner exchange loop for position `i`; the array is back to `c` after each exchange. */
  method SwapRow(valid: string -> bool, c: string, i: nat, ghost prior: seq<string>, start: seq<string>)
    returns (arr: string, results: seq<string>)
    requires i < |c|
    requires start == Collect(valid, prior)
    ensures arr == c
    ensures results == Collect(valid, prior + SwapsRow(c, i, |c|))
  {
    arr, results := c, start;
    ghost var seen := prior;
    var j := i + 1;
    while j < |arr|
      invariant i + 1 <= j <= |c|
      invariant arr == c
      invariant seen == prior + SwapsRow(c, i, j)
      invariant results == Collect(valid, seen)
    {
      var candidate := Swap(arr, i, j);
      results := Offer(valid, seen, results, candidate);
      SwapsRowStep(c, prior, i, j);
      seen := seen + [candidate];
      SwapTwice(c, i, j);
      arr := Swap(candidate, i, j);
      j := j + 1;
    }
    assert j == |c|;
  }

  /** Exchanging the same two positions again restores the text. */
  lemma SwapTwice(s: string, i: nat, j: nat)
    requires i < |s| && j < |s|
    ensures Swap(Swap(s, i, j), i, j) == s
  {
    var t := Swap(Swap(s, i, j), i, j);
    SwapSpec(s, i, j);
    SwapSpec(Swap(s, i, j), i, j);
    assert forall k :: 0 <= k < |s| ==> t[k] == s[k];
  }

  lemma SwapsRowStep(c: string, prior: seq<string>, i: nat, j: nat)
    requires i < j < |c|
    ensures prior + SwapsRow(c, i, j) + [Swap(c, i, j)] == prior + SwapsRow(c, i, j + 1)
  {
    var row := SwapsRow(c, i, j);
    assert SwapsRow(c, i, j + 1) == row + [Swap(c, i, j)];
    assert (prior + row) + [Swap(c, i, j)] == prior + (row + [Swap(c, i, j)]);
  }

  lemma SwapsBeforeStep(c: string, prior: seq<string>, i: nat)
    requires i < |c|
    ensures prior + SwapsBefore(c, i) + SwapsRow(c, i, |c|) == prior + SwapsBefore(c, i + 1)
  {
    var a, b, x := prior, SwapsBefore(c, i), SwapsRow(c, i, |c|);
    assert SwapsBefore(c, i + 1) == b + x;
    assert a + b + x == a + (b + x);
  }

  /** The last position pairs with nothing, so the exchange loop may stop one position early. */
  lemma SwapsBeforeLast(c: string, i: nat)
    requires i <= |c| <= i + 1
    ensures SwapsBefore(c, i) == SwapsBefore(c, |c|)
  {
    if i < |c| {
      assert SwapsRow(c, i, |c|) == [];
      assert SwapsBefore(c, |c|) == SwapsBefore(c, i) + SwapsRow(c, i, |c|);
    }
  }

  /** `findCorrections` as written in js/corrections.js: both passes over the cleaned text, sharing one
      `Set`. */
  method FindCorrectionsLoop(d: Directory, raw: string) returns (results: seq<string>)
    ensures results == FindCorrections(d, raw)
  {
    var c := Clean(raw);
    var subs := SubstitutionPass(Accepts(d), ValidChars, c);
    results := SwapPass(Accepts(d), c, SubstitutionsBefore(ValidChars, c, |c|), subs);
  }
}
