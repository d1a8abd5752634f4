/** `checkIBAN`: the decision chain behind the result panel. The panel's HTML is replaced by an
    `Outcome` carrying exactly the values `checkIBAN` interpolates into it. */
module Facade {
  import opened Text
  import opened Utils
  import opened Data
  import opened Checksum
  import opened Validators
  import opened Corrections
  import opened Editions
  import opened Indicators

  /** What the result panel shows. */
  datatype Outcome =
    | Placeholder                  // "Inserisci un IBAN per vedere i risultati." (modular, blank input)
    | EmptyField                   // "Campo vuoto." (single-file, blank input)
    | NotItalian                   // "IBAN non italiano."
    | WrongLength(length: nat, verb: string)
    | Valid(iban: string, formatted: string, bankName: string, place: Place)
    | NoCorrection                 // "Nessuna correzione trovata."
    | Corrected(heading: string, corrections: seq<string>, shown: seq<string>)

  /** A check: the indicator chips and the result panel. */
  datatype View = View(chips: seq<Indicator>, outcome: Outcome)

  const TooLong := "troppo lungo"
  const TooShort := "troppo corto"

  /** The heading above the list of corrections: the modular edition has a singular form for one
      correction; the single-file edition always uses the plural. Either way the heading opens with
      the count, so reading its leading number gives back the number of corrections. */
  function Heading(n: nat, edition: Edition): (h: string)
    ensures edition == Modular && n == 1 ==> h == "1 correzione trovata:"
    ensures !(edition == Modular && n == 1) ==> h == DecimalString(n) + " correzioni trovate:"
    ensures ParseLeadingDigits(h) == n
  {
    if edition == Modular && n == 1 then
      CountOpens(1, " correzione trovata:");
      "1 correzione trovata:"
    else
      CountOpens(n, " correzioni trovate:");
      DecimalString(n) + " correzioni trovate:"
  }

  /** A number written out and followed by a space reads back as that number. */
  lemma CountOpens(n: nat, words: string)
    requires |words| > 0 && words[0] == ' '
    ensures ParseLeadingDigits(DecimalString(n) + words) == n
    ensures n == 1 ==> DecimalString(n) + words == ['1'] + words
  {
    assert DigitPrefix(words) == [];
    ParseAfterNumber(n, words);
  }

  /** The result panel for the raw input, after `cleanIban`: blank, not Italian, wrong length,
      valid (with display form, bank and branch), or invalid with or without corrections. */
  function Classify(d: Directory, raw: string, edition: Edition): (o: Outcome)
    ensures o.Valid? ==> o.iban == Clean(raw) && o.formatted == FormatIban(Clean(raw))
    ensures o.Corrected? ==> (|o.shown| == |o.corrections|
      && forall i :: 0 <= i < |o.shown| ==> o.shown[i] == FormatIban(o.corrections[i]))
  {
    var c := Clean(raw);
    if |c| == 0 then
      if edition == Modular then Placeholder else EmptyField
    else if !StartsWithIT(c) then NotItalian
    else if |c| != IbanLength then
      WrongLength(|c|, if |c| - IbanLength > 0 then TooLong else TooShort)
    else if IsValidComplete(d, c) then
      Valid(c, FormatIban(c), GetBankName(d, c), GetComuneAndSigla(d, c))
    else
      var corrections := FindCorrections(d, c);
      if |corrections| == 0 then NoCorrection
      else
        Corrected(Heading(|corrections|, edition), corrections,
          seq(|corrections|, i requires 0 <= i < |corrections| => FormatIban(corrections[i])))
  }

  /** `checkIBAN`: the chips are refreshed first, then the result panel. The two agree: a valid
      panel, which appears exactly when `isValidComplete` accepts the input, comes with five green
      chips, and the blank-input panels come exactly with five waiting chips. */
  function CheckIban(d: Directory, raw: string, edition: Edition): (v: View)
    ensures |v.chips| == |Names|
    ensures v.outcome == Classify(d, raw, edition)
    ensures v.outcome.Valid? <==> IsValidComplete(d, raw)
    ensures v.outcome.Valid? ==> forall k :: 0 <= k < |v.chips| ==> v.chips[k].status == Passed
    ensures (v.outcome.Placeholder? || v.outcome.EmptyField?) <==>
      forall k :: 0 <= k < |v.chips| ==> v.chips[k].status == Pending
  {
    ValidExactly(d, raw, edition);
    BlankInput(d, raw, edition);
    BlankIndicators(d, raw, edition);
    var chips, o := UpdateIndicators(d, raw, edition), Classify(d, raw, edition);
    assert o.Valid? ==> forall k :: 0 <= k < |chips| ==> chips[k].status == Passed by {
      if o.Valid? {
        AllPassWhenValid(d, raw, edition);
      }
    }
    View(chips, o)
  }

  /** Blank input: the modular edition shows the placeholder, the single-file one "Campo vuoto". */
  lemma BlankInput(d: Directory, raw: string, edition: Edition)
    ensures (forall i :: 0 <= i < |raw| ==> IsWhitespace(raw[i])) <==>
      (Classify(d, raw, edition).Placeholder? || Classify(d, raw, edition).EmptyField?)
    ensures Classify(d, raw, edition).Placeholder? <==>
      edition == Modular && forall i :: 0 <= i < |raw| ==> IsWhitespace(raw[i])
    ensures Classify(d, raw, edition).EmptyField? <==>
      edition == Legacy && forall i :: 0 <= i < |raw| ==> IsWhitespace(raw[i])
  {
    CleanEmptyIffBlank(raw);
  }

  /** Non-blank input that does not start with "IT" once cleaned is reported as foreign, before
      its length is looked at. */
  lemma ForeignInput(d: Directory, raw: string, edition: Edition)
    ensures Classify(d, raw, edition).NotItalian? <==> |Clean(raw)| > 0 && !StartsWithIT(Clean(raw))
  {
  }

  /** An Italian prefix with a length other than 27 is reported with that length, as "troppo
      lungo" exactly when the text is longer than 27 characters. */
  lemma LengthReport(d: Directory, raw: string, edition: Edition)
    ensures var o := Classify(d, raw, edition);
      && (o.WrongLength? <==> StartsWithIT(Clean(raw)) && |Clean(raw)| != IbanLength)
      && (o.WrongLength? ==> o.length == |Clean(raw)| && (o.verb == TooLong <==> |Clean(raw)| > IbanLength))
      && (o.WrongLength? ==> (o.verb == TooShort <==> |Clean(raw)| < IbanLength))
  {
  }

  /** The panel shows a valid IBAN exactly when `isValidComplete` accepts the input; it then shows
      the cleaned IBAN, a display form that cleans back to it, and the bank and branch looked up
      on it. */
  lemma ValidExactly(d: Directory, raw: string, edition: Edition)
    ensures var o := Classify(d, raw, edition);
      && (o.Valid? <==> IsValidComplete(d, raw))
      && (o.Valid? ==> Clean(o.formatted) == o.iban && |o.formatted| == 32)
      && (o.Valid? ==> o.bankName == GetBankName(d, Clean(raw)) && o.place == GetComuneAndSigla(d, Clean(raw)))
  {
    var c := Clean(raw);
    var o := Classify(d, raw, edition);
    RulesIgnoreCleaning(d, raw);
    assert o.Valid? <==> (|c| > 0 && StartsWithIT(c) && |c| == IbanLength && IsValidComplete(d, c));
    if o.Valid? {
      FormatRoundTrip(c);
      CleanIdempotent(raw);
    }
  }

  /** "Nessuna correzione trovata" is shown exactly for a 27-character Italian text that fails
      `isValidComplete` and has no valid text one substitution or one exchange away. */
  lemma NoCorrectionExactly(d: Directory, raw: string, edition: Edition)
    ensures Classify(d, raw, edition).NoCorrection? <==>
      && StartsWithIT(Clean(raw)) && |Clean(raw)| == IbanLength
      && !IsValidComplete(d, raw)
      && forall t :: IsValidComplete(d, t) ==> !IsSubstitution(Clean(raw), t) && !IsSwapOf(Clean(raw), t)
  {
    var c := Clean(raw);
    RulesIgnoreCleaning(d, raw);
    CleanIdempotent(raw);
    var r := FindCorrections(d, c);
    forall t
      ensures t in r <==> IsValidComplete(d, t) && (IsSubstitution(c, t) || IsSwapOf(c, t))
    {
      FindCorrectionsExact(d, c, t);
    }
    if |r| > 0 {
      assert r[0] in r;
    }
  }

  /** The listed corrections are valid texts one edit away from the cleaned input, none equal to
      it, each once, and all of them; the heading counts them. */
  lemma CorrectedListing(d: Directory, raw: string, edition: Edition)
    ensures var o := Classify(d, raw, edition);
      o.Corrected? ==>
      && StartsWithIT(Clean(raw)) && |Clean(raw)| == IbanLength && !IsValidComplete(d, raw)
      && |o.corrections| > 0
      && NoDuplicates(o.corrections)
      && (forall t :: t in o.corrections <==>
            IsValidComplete(d, t) && (IsSubstitution(Clean(raw), t) || IsSwapOf(Clean(raw), t)))
      && (forall t :: t in o.corrections ==> t != Clean(raw))
      && o.heading == Heading(|o.corrections|, edition)
  {
    var c := Clean(raw);
    if Classify(d, raw, edition).Corrected? {
      RulesIgnoreCleaning(d, raw);
      CleanIdempotent(raw);
      forall t
        ensures t in FindCorrections(d, c) <==> IsValidComplete(d, t) && (IsSubstitution(c, t) || IsSwapOf(c, t))
      {
        FindCorrectionsExact(d, c, t);
      }
      FindCorrectionsExact(d, c, c);
    }
  }

  /** The headings of the two editions differ only for a single correction. */
  lemma HeadingsDiffer(n: nat)
    ensures n != 1 ==> Heading(n, Modular) == Heading(n, Legacy)
    ensures Heading(1, Modular) == "1 correzione trovata:"
    ensures Heading(1, Legacy) == "1 correzioni trovate:"
  {
    assert DecimalString(1) == "1";
    assert "1" + " correzioni trovate:" == "1 correzioni trovate:";
  }

  /** The two editions differ only on blank input and in the heading for a single correction. */
  lemma EditionsDiffer(d: Directory, raw: string)
    ensures var m, l := Classify(d, raw, Modular), Classify(d, raw, Legacy);
      && (m.Placeholder? <==> l.EmptyField?)
      && (!m.Placeholder? && !m.Corrected? ==> m == l)
      && (m.Corrected? ==> l.Corrected? && l.corrections == m.corrections && l.shown == m.shown)
      && (m.Corrected? && |m.corrections| == 1 ==> m.heading == "1 correzione trovata:" && l.heading == "1 correzioni trovate:")
      && (m.Corrected? && |m.corrections| != 1 ==> m == l)
  {
    var c := Clean(raw);
    var m, l := Classify(d, raw, Modular), Classify(d, raw, Legacy);
    if |c| == 0 || !StartsWithIT(c) || |c| != IbanLength || IsValidComplete(d, c) {
      assert !m.Corrected? && (m.Placeholder? || m == l);
    } else {
      var r := FindCorrections(d, c);
      if |r| > 0 {
        var shown := seq(|r|, i requires 0 <= i < |r| => FormatIban(r[i]));
        assert m == Corrected(Heading(|r|, Modular), r, shown);
        assert l == Corrected(Heading(|r|, Legacy), r, shown);
        HeadingsDiffer(|r|);
      }
    }
  }
}
