/** `updateIndicators`: the five status chips shown above the result, computed from the trimmed,
    normalised input. The DOM work is left out; a chip is its label and its status. */
module Indicators {
  import opened Text
  import opened Utils
  import opened Data
  import opened Checksum
  import opened Validators
  import opened Editions

  /** A chip's state: neutral (clock icon), passed (check mark) or failed (cross). */
  datatype Status = Pending | Passed | Failed

  datatype Indicator = Indicator(name: string, status: Status)

  /** The chip labels, in display order. */
  const Names: seq<string> := ["Format", "Mod.97", "ABI", "CAB", "CC"]

  function StatusOf(passed: bool): Status {
    if passed then Passed else Failed
  }

  /** The text the chips are computed from: `cleanIban(iban.trim())` in the modular edition,
      `iban.trim().replace(/\s+/g, "")` (no upper-casing) in the single-file one. */
  function IndicatorInput(raw: string, edition: Edition): string {
    if edition == Modular then Clean(Trim(raw)) else RemoveWhitespace(Trim(raw))
  }

  /** The outcome of each check on the indicator input, in the order of `Names`. */
  function Checks(d: Directory, clean: string): (passed: seq<bool>)
    ensures |passed| == |Names|
  {
    [ |clean| == IbanLength,
      IsIbanValid(clean),
      IsValidABI(d, clean),
      IsValidCAB(d, clean),
      IsValidAccountNumber(clean) ]
  }

  /** `updateIndicators`: five neutral chips for blank input, otherwise one chip per check, in the
      fixed order of `Names`. */
  function UpdateIndicators(d: Directory, raw: string, edition: Edition): (chips: seq<Indicator>)
    ensures |chips| == |Names|
    ensures forall i :: 0 <= i < |chips| ==> chips[i].name == Names[i]
  {
    var clean := IndicatorInput(raw, edition);
    var passed := Checks(d, clean);
    seq(|Names|, i requires 0 <= i < |Names| =>
      Indicator(Names[i], if |clean| == 0 then Pending else StatusOf(passed[i])))
  }

  /** Both normalisations of the indicator input clean to the cleaned raw input and have its
      length. */
  lemma {:induction false} IndicatorInputCleans(raw: string, edition: Edition)
    ensures Clean(IndicatorInput(raw, edition)) == Clean(raw)
    ensures |IndicatorInput(raw, edition)| == |Clean(raw)|
  {
    CleanAfterTrim(raw);
    if edition == Modular {
      CleanIdempotent(Trim(raw));
    } else {
      CleanAfterRemoveWhitespace(Trim(raw));
    }
  }

  /** The five checks read on the raw input: the indicator input has the cleaned input's length and
      cleans to it, and every rule reads only the cleaned text. */
  lemma ChecksOnRaw(d: Directory, raw: string, edition: Edition)
    ensures var passed := Checks(d, IndicatorInput(raw, edition));
      && passed[0] == (|Clean(raw)| == IbanLength)
      && passed[1] == IsIbanValid(raw)
      && passed[2] == (|Clean(raw)| >= 10 && Clean(raw)[5..10] in d.abi)
      && passed[3] == IsValidCAB(d, raw)
      && passed[4] == IsValidAccountNumber(raw)
  {
    IndicatorInputCleans(raw, edition);
    var x, c := IndicatorInput(raw, edition), Clean(raw);
    assert Clean(x) == c && |x| == |c|;
    var passed := Checks(d, x);
    assert passed[1] == IsIbanValid(x);
    assert passed[2] == IsValidABI(d, x);
    assert passed[3] == IsValidCAB(d, x);
    assert passed[4] == IsValidAccountNumber(x);
  }

  /** Each chip waits while the cleaned input is empty and otherwise shows its check's outcome. */
  lemma ChipStatus(d: Directory, raw: string, edition: Edition)
    ensures forall k :: 0 <= k < |Names| ==>
      UpdateIndicators(d, raw, edition)[k].status ==
        if |Clean(raw)| == 0 then Pending else StatusOf(Checks(d, IndicatorInput(raw, edition))[k])
  {
    IndicatorInputCleans(raw, edition);
  }

  /** All five chips wait exactly when the input is blank. */
  lemma BlankIndicators(d: Directory, raw: string, edition: Edition)
    ensures (forall i :: 0 <= i < |raw| ==> IsWhitespace(raw[i])) <==>
      forall k :: 0 <= k < |Names| ==> UpdateIndicators(d, raw, edition)[k].status == Pending
  {
    ChipStatus(d, raw, edition);
    CleanEmptyIffBlank(raw);
    if |Clean(raw)| > 0 {
      assert UpdateIndicators(d, raw, edition)[0].status != Pending;
    }
  }

  /** What each chip says about non-blank raw input: Format is the 27-character length, Mod.97 the
      checksum, ABI a dictionary code at chars 5..10, CAB and CC the branch and account rules,
      each read on the cleaned input. */
  lemma IndicatorsMeaning(d: Directory, raw: string, edition: Edition)
    requires exists i :: 0 <= i < |raw| && !IsWhitespace(raw[i])
    ensures var chips := UpdateIndicators(d, raw, edition);
      && chips[0].status == StatusOf(|Clean(raw)| == IbanLength)
      && chips[1].status == StatusOf(IsIbanValid(raw))
      && chips[2].status == StatusOf(|Clean(raw)| >= 10 && Clean(raw)[5..10] in d.abi)
      && chips[3].status == StatusOf(IsValidCAB(d, raw))
      && chips[4].status == StatusOf(IsValidAccountNumber(raw))
  {
    CleanEmptyIffBlank(raw);
    ChipStatus(d, raw, edition);
    ChecksOnRaw(d, raw, edition);
    var chips := UpdateIndicators(d, raw, edition);
    var passed := Checks(d, IndicatorInput(raw, edition));
    assert chips[0].status == StatusOf(passed[0]);
    assert chips[1].status == StatusOf(passed[1]);
    assert chips[2].status == StatusOf(passed[2]);
    assert chips[3].status == StatusOf(passed[3]);
    assert chips[4].status == StatusOf(passed[4]);
  }

  /** The single-file edition omits the upper-casing and still shows the same chips. */
  lemma EditionsAgree(d: Directory, raw: string)
    ensures UpdateIndicators(d, raw, Legacy) == UpdateIndicators(d, raw, Modular)
  {
    IndicatorInputCleans(raw, Modular);
    IndicatorInputCleans(raw, Legacy);
    ChecksOnRaw(d, raw, Modular);
    ChecksOnRaw(d, raw, Legacy);
    var m, l := Checks(d, IndicatorInput(raw, Modular)), Checks(d, IndicatorInput(raw, Legacy));
    assert m == l;
  }

  /** An IBAN that passes `isValidComplete` lights every chip green. */
  lemma AllPassWhenValid(d: Directory, raw: string, edition: Edition)
    requires IsValidComplete(d, raw)
    ensures forall k :: 0 <= k < |Names| ==> UpdateIndicators(d, raw, edition)[k].status == Passed
  {
    ValidCompleteParts(d, raw);
    CleanEmptyIffBlank(raw);
    assert exists i :: 0 <= i < |raw| && !IsWhitespace(raw[i]);
    IndicatorsMeaning(d, raw, edition);
    var chips := UpdateIndicators(d, raw, edition);
    forall k | 0 <= k < |Names|
      ensures chips[k].status == Passed
    {
      assert k == 0 || k == 1 || k == 2 || k == 3 || k == 4;
    }
  }
}
