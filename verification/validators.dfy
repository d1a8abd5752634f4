/** The structural rules of an Italian IBAN (`isValidABI`, `isValidCAB`, `isValidAccountNumber`,
    `isItalianIbanStructure`) and the complete check `isValidComplete`. Every rule cleans its input
    first, as each JavaScript rule does, and reads fixed-offset fields: country 0..2, check digits 2..4,
    CIN 4..5, ABI 5..10, CAB 10..15, account number 15..27. */
module Validators {
  import opened Text
  import opened Utils
  import opened Data
  import opened Checksum

  /** The length of an Italian IBAN. */
  const IbanLength: nat := 27

  /** The fields of a 27-character IBAN. */
  datatype Fields = Fields(country: string, checkDigits: string, cin: char, abi: string, cab: string, account: string)

  function Split(c: string): (f: Fields)
    requires |c| == IbanLength
    ensures |f.country| == 2 && |f.checkDigits| == 2 && |f.abi| == 5 && |f.cab| == 5 && |f.account| == 12
  {
    Fields(c[..2], c[2..4], c[4], c[5..10], c[10..15], c[15..])
  }

  function Join(f: Fields): string {
    f.country + f.checkDigits + [f.cin] + f.abi + f.cab + f.account
  }

  /** Splitting into fields and joining them again gives the IBAN back. */
  lemma JoinSplit(c: string)
    requires |c| == IbanLength
    ensures Join(Split(c)) == c
  {
    assert c == c[..2] + c[2..4] + [c[4]] + c[5..10] + c[10..15] + c[15..];
  }

  /** `iban.startsWith("IT")`. */
  predicate StartsWithIT(c: string) {
    |c| >= 2 && c[..2] == "IT"
  }

  /** `isValidABI`: the raw text has at least 10 characters and chars 5..10 of its cleaned form are a
      key of the ABI dictionary. */
  predicate IsValidABI(d: Directory, raw: string) {
    if |raw| < 10 then false else Substring(Clean(raw), 5, 10) in d.abi
  }

  /** The six numeric bands of `isValidCAB` (regional and provincial capitals, comuni L and M); the
      bounds are exclusive. */
  predicate InCabBands(n: int) {
    || (999 < n < 4999)
    || (9999 < n < 17500)
    || (19999 < n < 26400)
    || (29999 < n < 85230)
    || (85249 < n < 85450)
    || (85769 < n < 89930)
  }

  /** Whether some record of the directory's CAB list covers `n` (`cabList.some(...)`). */
  predicate ListedCab(d: Directory, n: int) {
    exists i :: 0 <= i < |d.cabs| && Covers(d.cabs[i], n)
  }

  /** `isValidCAB`: at least 15 cleaned characters, chars 10..15 five digits, and the code inside one
      of the six bands or covered by a record of the list. */
  predicate IsValidCAB(d: Directory, raw: string) {
    var c := Clean(raw);
    if |c| < 15 then false
    else
      var cab := c[10..15];
      if !IsDigitString(cab, 5) then false
      else
        var n := Value(cab);
        if InCabBands(n) then true
        else if |d.cabs| > 0 then ListedCab(d, n)
        else false
  }

  /** The branch-code rule on a five-character field, as `isValidCAB` tests it: five digits,
      and the code strictly inside a band or inside some record's inclusive range. */
  predicate CabAccepted(d: Directory, cab: string) {
    IsDigitString(cab, 5) && (InCabBands(Value(cab)) || ListedCab(d, Value(cab)))
  }

  /** `^(?:\d{2}|CC)\d{7}[0-9X]\d{2}$`: two digits or the literal "CC", seven digits, a digit or "X",
      two digits. */
  predicate AccountPattern(a: string) {
    && |a| == 12
    && ((IsDigit(a[0]) && IsDigit(a[1])) || (a[0] == 'C' && a[1] == 'C'))
    && (forall i :: 2 <= i < 9 ==> IsDigit(a[i]))
    && (IsDigit(a[9]) || a[9] == 'X')
    && IsDigit(a[10]) && IsDigit(a[11])
  }

  /** One position of a regular expression built from character classes: `\d`, a literal
      character, or `[0-9X]`. */
  datatype CharClass = AnyDigit | Literal(ch: char) | DigitOrX

  predicate InClass(cl: CharClass, ch: char) {
    match cl
    case AnyDigit => IsDigit(ch)
    case Literal(c) => ch == c
    case DigitOrX => IsDigit(ch) || ch == 'X'
  }

  /** `a` matches the anchored pattern whose positions are the classes `p`. */
  predicate MatchesClasses(a: string, p: seq<CharClass>) {
    |a| == |p| && forall i :: 0 <= i < |a| ==> InClass(p[i], a[i])
  }

  /** One branch of the account regular expression: `first` twice, then `\d{7}[0-9X]\d{2}`. */
  function AccountShape(first: CharClass): (p: seq<CharClass>)
    ensures |p| == 12
  {
    seq(12, i requires 0 <= i < 12 => if i < 2 then first else if i == 9 then DigitOrX else AnyDigit)
  }

  /** The account pattern is the regular expression `^(?:\d{2}|CC)\d{7}[0-9X]\d{2}$`: a match of
      its digits branch or of its "CC" branch. */
  lemma AccountPatternIsRegex(a: string)
    ensures AccountPattern(a) <==>
      MatchesClasses(a, AccountShape(AnyDigit)) || MatchesClasses(a, AccountShape(Literal('C')))
  {
    var digits, cc := AccountShape(AnyDigit), AccountShape(Literal('C'));
    if |a| == 12 {
      assert MatchesClasses(a, digits) ==> IsDigit(a[0]) && IsDigit(a[1]) && IsDigit(a[10]) && IsDigit(a[11]);
      assert MatchesClasses(a, cc) ==> a[0] == 'C' && a[1] == 'C' && IsDigit(a[10]) && IsDigit(a[11]);
      assert MatchesClasses(a, digits) || MatchesClasses(a, cc) ==> IsDigit(a[9]) || a[9] == 'X';
    }
  }

  /** `isValidAccountNumber`: 27 cleaned characters whose last 12 match the account pattern. */
  predicate IsValidAccountNumber(raw: string) {
    var c := Clean(raw);
    |c| == IbanLength && AccountPattern(c[15..])
  }

  /** `isItalianIbanStructure`: the seven structural conditions, checked on the cleaned text. */
  predicate IsItalianIbanStructure(d: Directory, raw: string) {
    var c := Clean(raw);
    && |c| == IbanLength
    && StartsWithIT(c)
    && IsDigitString(c[2..4], 2)
    && IsUpper(c[4])
    && IsValidABI(d, c)
    && IsValidCAB(d, c)
    && IsValidAccountNumber(c)
  }

  /** `isValidComplete`: the mod-97 check and the Italian structure. */
  predicate IsValidComplete(d: Directory, raw: string) {
    IsIbanValid(raw) && IsItalianIbanStructure(d, raw)
  }

  /** Every rule reads the cleaned text only, so cleaning first changes none of them (for the ABI
      rule's raw-length test, cleaning may shorten the text, hence the restriction to clean input
      for it). */
  lemma {:induction false} RulesIgnoreCleaning(d: Directory, raw: string)
    ensures IsIbanValid(Clean(raw)) == IsIbanValid(raw)
    ensures IsValidCAB(d, Clean(raw)) == IsValidCAB(d, raw)
    ensures IsValidAccountNumber(Clean(raw)) == IsValidAccountNumber(raw)
    ensures IsItalianIbanStructure(d, Clean(raw)) == IsItalianIbanStructure(d, raw)
    ensures IsValidComplete(d, Clean(raw)) == IsValidComplete(d, raw)
    ensures IsValidABI(d, Clean(raw)) == (|Clean(raw)| >= 10 && Clean(raw)[5..10] in d.abi)
  {
    CleanIdempotent(raw);
  }

  /** The CAB rule: false for fewer than 15 cleaned characters; otherwise exactly the band-or-list
      acceptance of chars 10..15 (the `cabList.length > 0` guard of `isValidCAB` on the list changes nothing,
      since `some` over an empty list is false). */
  lemma {:induction false} CabRule(d: Directory, raw: string)
    ensures |Clean(raw)| < 15 ==> !IsValidCAB(d, raw)
    ensures |Clean(raw)| >= 15 ==> (IsValidCAB(d, raw) <==> CabAccepted(d, Clean(raw)[10..15]))
  {
  }

  /** A code strictly inside one of the six bands is accepted whatever the list holds; the band
      bounds themselves are not (they depend on the list). */
  lemma CabBandsAcceptAnyDirectory(d: Directory, raw: string)
    requires |Clean(raw)| >= 15 && IsDigitString(Clean(raw)[10..15], 5)
    requires InCabBands(Value(Clean(raw)[10..15]))
    ensures IsValidCAB(d, raw)
    ensures IsValidCAB(Directory(map[], []), raw)
  {
  }

  /** Outside the bands the list decides, with inclusive bounds; with an empty list the code is
      rejected. */
  lemma CabOutsideBands(d: Directory, raw: string)
    requires |Clean(raw)| >= 15 && IsDigitString(Clean(raw)[10..15], 5)
    requires !InCabBands(Value(Clean(raw)[10..15]))
    ensures IsValidCAB(d, raw) <==> exists i :: 0 <= i < |d.cabs| && d.cabs[i].base <= Value(Clean(raw)[10..15]) <= d.cabs[i].upper
    ensures d.cabs == [] ==> !IsValidCAB(d, raw)
  {
  }

  /** The structure rule read field by field on the cleaned IBAN: country "IT", two check digits,
      an upper-case CIN, an ABI code of the dictionary, an accepted CAB and an account number of
      the account pattern. The nested re-cleaning inside `isValidABI`, `isValidCAB` and `isValidAccountNumber` changes nothing. */
  lemma StructureByFields(d: Directory, raw: string)
    ensures IsItalianIbanStructure(d, raw) <==>
      var c := Clean(raw);
      && |c| == IbanLength
      && var f := Split(c);
      && f.country == "IT"
      && IsDigitString(f.checkDigits, 2)
      && IsUpper(f.cin)
      && f.abi in d.abi
      && CabAccepted(d, f.cab)
      && AccountPattern(f.account)
  {
    var c := Clean(raw);
    CleanIdempotent(raw);
    if |c| == IbanLength {
      CabRule(d, c);
    }
  }

  /** A completely valid IBAN passes each of the checks the indicator chips show. */
  lemma ValidCompleteParts(d: Directory, raw: string)
    requires IsValidComplete(d, raw)
    ensures |Clean(raw)| == IbanLength
    ensures IsIbanValid(raw)
    ensures Clean(raw)[5..10] in d.abi
    ensures IsValidCAB(d, raw)
    ensures IsValidAccountNumber(raw)
  {
    var c := Clean(raw);
    CleanIdempotent(raw);
    assert IsValidABI(d, c) && IsValidCAB(d, c) && IsValidAccountNumber(c);
  }

  /** Bank codes of the directory are five-digit strings (true of the published ABI table). */
  predicate AbiKeysAreCodes(d: Directory) {
    forall k :: k in d.abi ==> IsDigitString(k, 5)
  }

  /** Under a directory whose bank codes are five digits, an IBAN passing `isValidComplete` is 27
      characters of `[A-Z0-9]`, starts with "IT", and its rearranged expansion read as one
      decimal number is congruent to 1 modulo 97. */
  lemma ValidCompleteMeansMod97(d: Directory, raw: string)
    requires AbiKeysAreCodes(d)
    requires IsValidComplete(d, raw)
    ensures var c := Clean(raw);
      && |c| == IbanLength
      && StartsWithIT(c)
      && (forall i :: 0 <= i < |c| ==> IsUpperAlnum(c[i]))
      && AllDigits(Expand(Rearrange(c)))
      && Value(Expand(Rearrange(c))) % 97 == 1
  {
    var c := Clean(raw);
    StructureByFields(d, raw);
    var f := Split(c);
    assert IsDigitString(f.abi, 5);
    FieldsAlphabet(c);
    IsIbanValidIffMod97(raw);
  }

  /** An IBAN whose fields have the Italian shape (and a five-digit bank code) is spelt in `[A-Z0-9]`. */
  lemma FieldsAlphabet(c: string)
    requires |c| == IbanLength
    requires var f := Split(c);
      && f.country == "IT" && IsDigitString(f.checkDigits, 2) && IsUpper(f.cin)
      && IsDigitString(f.abi, 5) && IsDigitString(f.cab, 5) && AccountPattern(f.account)
    ensures forall i :: 0 <= i < |c| ==> IsUpperAlnum(c[i])
  {
    var f := Split(c);
    forall i | 0 <= i < |c|
      ensures IsUpperAlnum(c[i])
    {
      if i < 2 {
        assert c[i] == f.country[i];
      } else if i < 4 {
        assert c[i] == f.checkDigits[i - 2];
      } else if i == 4 {
      } else if i < 10 {
        assert c[i] == f.abi[i - 5];
      } else if i < 15 {
        assert c[i] == f.cab[i - 10];
      } else {
        assert c[i] == f.account[i - 15];
      }
    }
  }

  /** The fields the lookups read (white space removed, no upper-casing) are the fields the rules
      read, whenever the lookup field is five digits: upper-casing leaves digits alone. */
  lemma {:induction false} LookupFieldsAgree(raw: string, lo: nat)
    requires lo + 5 <= 27
    requires IsDigitString(Substring(RemoveWhitespace(raw), lo, lo + 5), 5)
    ensures |Clean(raw)| >= lo + 5
    ensures Clean(raw)[lo..lo + 5] == Substring(RemoveWhitespace(raw), lo, lo + 5)
  {
    var w := RemoveWhitespace(raw);
    CleanKeepsNonWhitespace(raw);
    assert |w| >= lo + 5;
    var u := ToUpperString(w);
    assert u[lo..lo + 5] == w[lo..lo + 5];
  }

  /** When `getComuneAndSigla` finds a record for the branch code, `isValidCAB` accepts the IBAN. */
  lemma CabLookupMeansValidCab(d: Directory, raw: string)
    requires IsDigitString(CabField(raw), 5)
    requires FirstCovering(d.cabs, Value(CabField(raw))).Some?
    ensures IsValidCAB(d, raw)
  {
    LookupFieldsAgree(raw, 10);
    var n := Value(CabField(raw));
    assert ListedCab(d, n);
  }

  /** For the cleaned text of a completely valid IBAN, `getBankName` reads a code of the dictionary:
      it shows the dictionary's name, or "Banca Sconosciuta" only when that name is empty. */
  lemma BankNameOfValid(d: Directory, raw: string)
    requires IsValidComplete(d, raw)
    ensures AbiField(Clean(raw)) in d.abi
    ensures GetBankName(d, Clean(raw)) == (if d.abi[AbiField(Clean(raw))] != "" then d.abi[AbiField(Clean(raw))] else UnknownBank)
  {
    var c := Clean(raw);
    CleanIdempotent(raw);
    NoWhitespaceUnchanged(c);
    assert AbiField(c) == Substring(c, 5, 10);
  }
}
