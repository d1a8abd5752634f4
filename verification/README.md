# IBAN Checker — a Dafny model of the validation and correction engine

This project models the logic of a browser tool that checks Italian IBANs.

- **Normalisation and display.** `cleanIban` upper-cases the text and drops white space. `formatIban` shows a 27-character IBAN in groups of 2, 2, 1, 5, 5 and 12.
- **The mod-97 check.** `isIbanValid` moves the first four characters to the end, expands the letters A..Z to the numbers 10..35, and reduces the numeral modulo 97 in blocks of seven digits, carrying the remainder. This is ISO 13616-1 with the MOD 97-10 scheme of ISO/IEC 7064.
- **The structural rules.**
  - `isValidABI`: the bank code (ABI, characters 5..10) is in the bank directory.
  - `isValidCAB`: the branch code (CAB, characters 10..15) is five digits and lies in one of six numeric bands or in a range of the branch list.
  - `isValidAccountNumber`: the account number (characters 15..27) matches a regular expression.
  - `isItalianIbanStructure` combines these rules with the country, check-digit and CIN (control character, position 4) tests.
  - `isValidComplete` combines the mod-97 check with the structure.
- **The correction search.** `findCorrections` lists every valid text one character substitution or one exchange of two characters away from the input. Each result appears once, in the order the search finds it.
- **The bank directory.** `loadBankData` turns the already-parsed tables into a bank-code dictionary and a branch-range list sorted by base. The lookups `getBankName` and `getComuneAndSigla` read them.
- **The status chips.** `updateIndicators` shows five chips (Format, Mod.97, ABI, CAB, CC) above the result.
- **The decision chain.** `checkIBAN` picks what the result panel shows: blank input, a foreign IBAN, a wrong length, a valid IBAN with its bank and branch, or an invalid one with or without corrections.

The repository ships the same logic twice:
- the modular edition (`js/*.js`);
- an older single-file edition (`script.js`).

The single-file copies of the rules and of the search are the same code as the modular ones, so one definition models both: `isIbanValid` (script.js:102-125), `isValidABI`, `isValidCAB`, `isValidAccountNumber` and `isItalianIbanStructure` (script.js:127-178), the lookups (script.js:182-198), `findCorrections` (script.js:202-228), `isValidComplete` and `formatIban` (script.js:230-239). `Editions.Edition` tells the two `checkIBAN` and `updateIndicators` apart. They differ in three places:
- On blank input the single-file edition shows "Campo vuoto." instead of the placeholder.
- The single-file edition never uses the singular heading "1 correzione trovata:".
- The single-file edition's chips do not upper-case the input. `Indicators.EditionsAgree` proves that this changes no chip.

The modules follow the JavaScript files:

| module | models |
|---|---|
| `Text` | characters, `substring`, `toString`, `parseInt` of a leading digit run |
| `Wrappers` | `Option` |
| `Utils` | `js/utils.js` |
| `Checksum` | `isIbanValid` |
| `Validators` | the other rules of `js/validators.js` |
| `Corrections` | `js/corrections.js` |
| `Data` | `js/data.js` |
| `Indicators` | `updateIndicators` in `js/ui.js` |
| `Facade` | `checkIBAN` in `js/main.js` and `script.js` |

The bank directory is an explicit `Data.Directory` value passed to every rule, instead of the global `STATE`.

`Corrections.FindCorrections` gives the correction search as a functional enumeration. `Corrections.FindCorrectionsLoop` follows the loops of `findCorrections`: substitutions over a 36-character alphabet, then exchange, test and exchange back on the character array. The two are proved equal.

The code computes no CIN check character: the CIN is only required to be an upper-case letter. It returns the corrections unranked, in the order the search finds them.

## Model

| member | source | states |
|---|---|---|
| Text.Substring | js/validators.js:45 | `substring` never yields more than the string, and for ordered in-range bounds it is exactly that slice |
| Text.DecimalString | js/validators.js:31 | `toString` of a non-negative integer: a digit string denoting the number, with a leading `0` only for zero, one digit below 10 and two below 100 |
| Text.DigitPrefix | js/validators.js:32 | the run `parseInt` reads: a prefix of the input made of digits, ended by the end of the text or by a non-digit |
| Text.ValueConcat | js/validators.js:31 | the numeral `a + b` denotes `a` shifted left by the length of `b`, plus `b` |
| Text.ParseLeadingDigits | js/validators.js:32 | `parseInt(s, 10)`: the value of the leading run of digits (no contract; `ParseAfterNumber` and `DigitPrefix` characterise it) |
| Text.ParseAfterNumber | js/validators.js:31-32 | `parseInt(r.toString() + chunk)` is `r` shifted past the leading digits of `chunk`, plus their value |
| Utils.RemoveWhitespace | js/utils.js:90 | `replace(/\s+/g, "")` leaves no white space and never lengthens the text |
| Utils.RemoveWhitespaceConcat | js/utils.js:90 | the removal works piecewise: on a concatenation it gives the concatenation of the pieces' results |
| Utils.NoWhitespaceUnchanged | js/utils.js:90 | the removal leaves a text unchanged exactly when it has no white space; with the piecewise law this fixes the result as the non-white-space characters in their order |
| Utils.RemoveWhitespaceFrom | js/utils.js:90 | every character left by the white-space removal comes from the input |
| Utils.Clean | js/utils.js:89-91 | `cleanIban` output has no white space and no lower-case letter, and is no longer than the input |
| Utils.CleanKeepsNonWhitespace | js/utils.js:90 | `cleanIban` keeps exactly the non-white-space characters, upper-cased, in their order |
| Utils.CleanFixedPoint | js/utils.js:89-91 | text that is already clean is left unchanged |
| Utils.CleanIdempotent | js/utils.js:89-91 | cleaning twice is cleaning once |
| Utils.CleanConcat | js/utils.js:90 | cleaning distributes over concatenation |
| Utils.CleanEmptyIffBlank | js/main.js:18-21 | the cleaned text is empty exactly when every input character is white space |
| Utils.Trim | js/ui.js:41 | `trim` returns one contiguous slice of the input, dropping only white space before and after it (inner white space stays); its ends are not white space |
| Utils.CleanAfterTrim | js/ui.js:41 | trimming before cleaning changes nothing |
| Utils.CleanAfterRemoveWhitespace | script.js:251 | the single-file chip input cleans to the cleaned input and has its length |
| Utils.FormatIban | js/utils.js:98-102 | other lengths: the cleaned text unchanged; 27 characters: 32 characters, spaces at 2, 5, 7, 13 and 19, and exactly the cleaned text once the spaces are removed |
| Utils.FormatRoundTrip | js/utils.js:98-102 | cleaning the display form gives the cleaned input back |
| Checksum.Rearrange | js/validators.js:15 | the first four characters move to the end; shorter text is unchanged |
| Checksum.Expand | js/validators.js:18-26 | the expansion loop, character by character (no contract; `ExpandLetterOrDigit` and `ExpandIsNumeral` characterise it) |
| Checksum.ExpandLetterOrDigit | js/validators.js:18-26 | a letter expands to the two digits of `code - 55` (A=10 … Z=35) and a digit is copied |
| Checksum.ExpandIsNumeral | js/validators.js:18-26 | the expansion of `[A-Z0-9]` text is all digits |
| Checksum.BlockStep | js/validators.js:31-32 | each pass leaves a remainder in 0..96 |
| Checksum.BlockStepValue | js/validators.js:31-32 | one pass computes `r` shifted left by the length of the chunk, plus the chunk, modulo 97 |
| Checksum.BlockRemainder | js/validators.js:29-33 | the carried remainder stays in 0..96 |
| Checksum.BlockReduction | js/validators.js:29-33 | reducing 7 digits at a time from remainder `r` equals reducing `r` shifted past the whole numeral `e`, plus `e`, modulo 97 in one go |
| Checksum.IsIbanValid | js/validators.js:13-36 | `isIbanValid`: clean, rearrange, expand, reduce in 7-digit blocks from 0, compare with 1 (no contract; `IsIbanValidIffMod97` characterises it) |
| Checksum.IsIbanValidIffMod97 | js/validators.js:13-36 | for `[A-Z0-9]` text, `isIbanValid` holds exactly when the rearranged expansion, as one number, is 1 modulo 97 |
| Validators.Split | js/validators.js:97-106 | the field widths: country 2, check digits 2, ABI 5, CAB 5, account 12 |
| Validators.JoinSplit | js/validators.js:97-106 | the fields are consecutive and cover the whole 27 characters |
| Validators.IsValidABI | js/validators.js:43-47 | `isValidABI`: at least 10 raw characters and chars 5..10 of the cleaned text a dictionary key (no contract; `RulesIgnoreCleaning` characterises it) |
| Validators.IsValidCAB | js/validators.js:54-77 | `isValidCAB` (no contract; `CabRule`, `CabBandsAcceptAnyDirectory` and `CabOutsideBands` characterise it) |
| Validators.IsValidAccountNumber | js/validators.js:84-90 | `isValidAccountNumber`: 27 cleaned characters whose last 12 match the account pattern (no contract; `AccountPatternIsRegex` characterises the pattern) |
| Validators.IsItalianIbanStructure | js/validators.js:97-109 | `isItalianIbanStructure` (no contract; `StructureByFields` characterises it) |
| Validators.IsValidComplete | js/validators.js:116-118 | `isValidComplete`: the mod-97 check and the structure (no contract; `ValidCompleteParts` and `ValidCompleteMeansMod97` characterise it) |
| Validators.RulesIgnoreCleaning | js/validators.js:43-118 | cleaning first changes no rule; on cleaned text the ABI rule is "at least 10 characters and chars 5..10 are a dictionary key" |
| Validators.CabRule | js/validators.js:54-77 | CAB: false below 15 cleaned characters, otherwise exactly "five digits, in a band or in a listed range" |
| Validators.CabBandsAcceptAnyDirectory | js/validators.js:63-70 | a code strictly inside a band is accepted with any list, even an empty one |
| Validators.CabOutsideBands | js/validators.js:72-76 | outside the bands the code is accepted exactly when some record has `base ≤ n ≤ upper`, and never with an empty list |
| Validators.AccountPatternIsRegex | js/validators.js:88-89 | the account rule is the account regular expression: two digits or "CC", seven digits, a digit or "X", two digits, as a match of one of its two branches |
| Validators.StructureByFields | js/validators.js:97-109 | the structure rule is exactly: 27 characters, "IT", two digits, an upper-case CIN, a dictionary ABI, an accepted CAB, a matching account |
| Validators.ValidCompleteParts | js/validators.js:116-118 | a complete pass implies length 27, the mod-97 check, a dictionary ABI, the CAB rule and the account rule |
| Validators.FieldsAlphabet | js/validators.js:97-106 | text with the Italian field shape is spelt in `[A-Z0-9]` |
| Validators.ValidCompleteMeansMod97 | js/validators.js:116-118 | with five-digit bank codes, a complete pass means 27 `[A-Z0-9]` characters starting "IT" whose rearranged expansion is 1 modulo 97 |
| Validators.LookupFieldsAgree | js/data.js:56 | where the lookup field is five digits, it equals the field the rules read |
| Validators.CabLookupMeansValidCab | js/data.js:66-70 | when `getComuneAndSigla` finds a record, `isValidCAB` accepts the IBAN |
| Validators.BankNameOfValid | js/data.js:55-58 | for a valid IBAN the bank lookup reads a dictionary code and shows its name, or "Banca Sconosciuta" only for an empty name |
| Corrections.Replace | js/corrections.js:24 | a substitution keeps the length |
| Corrections.ReplaceSpec | js/corrections.js:24 | a substitution puts the new character at `i` and keeps every other one |
| Corrections.Swap | js/corrections.js:36 | an exchange keeps the length |
| Corrections.SwapSpec | js/corrections.js:36 | an exchange moves the two characters and keeps every other one |
| Corrections.SwapTwice | js/corrections.js:36-42 | exchanging back restores the array |
| Corrections.Collect | js/corrections.js:17-46 | the `Set` fed the valid candidates in order, read back with `Array.from` (no contract; `CollectExact` and `CollectPrefix` characterise it) |
| Corrections.FindCorrections | js/corrections.js:16-47 | `findCorrections` as a functional enumeration (no contract; `FindCorrectionsExact` and `SubstitutionsComeFirst` characterise it) |
| Corrections.CollectExact | js/corrections.js:17-46 | the `Set` yields each valid candidate, only valid candidates, and each once |
| Corrections.CollectPrefix | js/corrections.js:17-46 | the results of earlier candidates stay at the front |
| Corrections.SubstitutionIsCandidate | js/corrections.js:21-29 | every one-position substitution from the alphabet is tried |
| Corrections.SwapIsCandidate | js/corrections.js:33-44 | every exchange of two positions `i < j` is tried |
| Corrections.CandidatesExact | js/corrections.js:21-44 | the candidates are exactly the single substitutions and the single exchanges |
| Corrections.SwapIsNotSubstitution | js/corrections.js:33-44 | an exchange never differs from the input in exactly one position |
| Corrections.FindCorrectionsExact | js/corrections.js:16-47 | a text is a correction exactly when it is valid and one substitution or one exchange from the cleaned input; no duplicates |
| Corrections.InputNeverListed | js/corrections.js:25-27 | an invalid cleaned input is never its own correction |
| Corrections.SubstitutionsComeFirst | js/corrections.js:20-46 | every substitution hit comes before every exchange-only hit |
| Corrections.Offer | js/corrections.js:25-27 | `results.add` on a valid candidate extends the collected results by that candidate |
| Corrections.SubstitutionRow | js/corrections.js:22-28 | the inner substitution loop adds the position's candidates in alphabet order |
| Corrections.SubstitutionPass | js/corrections.js:21-29 | the substitution loops collect all substitution candidates |
| Corrections.SwapRow | js/corrections.js:34-43 | the inner exchange loop adds the row's exchanges and leaves the array as it was |
| Corrections.SwapPass | js/corrections.js:32-44 | the exchange loops continue the results with all exchange candidates |
| Corrections.FindCorrectionsLoop | js/corrections.js:16-47 | the loops compute exactly the functional enumeration |
| Data.BuildAbiDictionary | js/data.js:26-28 | the dictionary's keys are exactly the table's codes |
| Data.AbiLastWriteWins | js/data.js:26-28 | a repeated code keeps the name from its last row |
| Data.InsertByBase | js/data.js:41 | insertion keeps the list sorted and adds exactly one record |
| Data.SortByBase | js/data.js:41 | the sort orders by `base` and is a permutation |
| Data.SortIsStable | js/data.js:41 | records with equal `base` keep their table order |
| Data.BuildCabList | js/data.js:34-41 | the branch list is a sorted permutation of the rows with `upper = base + Range` |
| Data.LoadDirectory | js/data.js:24-43 | the bank codes are exactly the ABI rows' codes, each naming the bank on its last row; the branch list is sorted by base and holds each CAB row's record exactly once; a table that failed to load leaves its part empty |
| Data.FirstCovering | js/data.js:70 | `find`: none exactly when no record covers `n`, otherwise the first covering record in list order |
| Data.GetBankName | js/data.js:55-58 | the name shown is never empty and is a directory name or "Banca Sconosciuta"; once white space is removed from text of at least 10 characters, it is the entry for chars 5..10 when present and non-empty, and the fallback when that code is absent |
| Data.GetComuneAndSigla | js/data.js:65-76 | "N/D" for a non-numeric field; otherwise the first covering record's comune with " (XX)" exactly when it has a province, or "Comune sconosciuto" |
| Indicators.Checks | js/ui.js:54-60 | one check per chip |
| Indicators.UpdateIndicators | js/ui.js:37-74 | five chips with the labels Format, Mod.97, ABI, CAB, CC in that order |
| Indicators.IndicatorInput | js/ui.js:41 | the chip input: `cleanIban(iban.trim())` in the modular edition, white space removed without upper-casing in the single-file one (no contract; `IndicatorInputCleans` characterises it) |
| Indicators.IndicatorInputCleans | js/ui.js:41 | the chip input (either edition) cleans to the cleaned input and has its length |
| Indicators.ChecksOnRaw | js/ui.js:54-60 | each check equals its rule applied to the raw input |
| Indicators.ChipStatus | js/ui.js:43-73 | each chip waits on empty cleaned input and otherwise shows its check |
| Indicators.BlankIndicators | js/ui.js:41-52 | all chips wait exactly when the input is blank |
| Indicators.IndicatorsMeaning | js/ui.js:54-60 | on non-blank input: Format is length 27, Mod.97 the checksum, ABI a dictionary code, CAB and CC the rules |
| Indicators.AllPassWhenValid | js/ui.js:54-60 | a completely valid IBAN turns every chip green |
| Indicators.EditionsAgree | script.js:251-269 | the single-file chips equal the modular ones |
| Facade.Heading | js/main.js:80 | the heading opens with the number of corrections, so its leading number reads back as the count; the singular wording appears only for one correction in the modular edition |
| Facade.Classify | js/main.js:14-101 | a valid outcome carries the cleaned IBAN and its display form; the correction list is shown in display form, same count and order |
| Facade.CheckIban | js/main.js:14-69 | the panel shows a valid IBAN exactly when `isValidComplete` holds, and then all five chips are green; the blank-input panels come exactly with five waiting chips |
| Facade.BlankInput | script.js:313-318 | blank input gives the placeholder in the modular edition and "Campo vuoto." in the single-file one, and nothing else does |
| Facade.ForeignInput | js/main.js:27-34 | "IBAN non italiano" exactly for non-blank text not starting with "IT", whatever its length |
| Facade.LengthReport | js/main.js:37-46 | a length error exactly for "IT" text not 27 long, reporting the length, "troppo lungo" exactly above 27 |
| Facade.ValidExactly | js/main.js:49-69 | the valid panel exactly when `isValidComplete` holds, with a display form that cleans back and the two lookups |
| Facade.NoCorrectionExactly | js/main.js:72-78 | "Nessuna correzione trovata" exactly for invalid 27-character "IT" text with no valid text one edit away |
| Facade.CorrectedListing | js/main.js:79-100 | listed corrections: all and only the valid texts one edit away, each once, none equal to the input, counted by the heading |
| Facade.HeadingsDiffer | script.js:374 | the single-file heading is "1 correzioni trovate:" for one correction and the modular one otherwise |
| Facade.EditionsDiffer | script.js:309-391 | the editions differ only on blank input and in the heading for a single correction |

## Left out

- Fetching and JSON parsing (`fetchData`, the `Promise.all` wrapper of `loadBankData`, the `try`/`catch`): I/O. A failed table is modelled as `None` in `Data.LoadDirectory`.
- The DOM, HTML strings, CSS classes and icons (`initDOM`, `displayPlaceholder`, `displayResult`, the chip elements): presentation. The panel is the `Facade.Outcome` value holding what the HTML interpolates.
- Clipboard access, `debounce`, the event listeners and the footer year: I/O and timing.
- The placeholder's wording ("Inserisci un IBAN…" against "Inserisci e verifica…"): the single-file edition never shows its placeholder for blank input, so only the constructor is modelled.
- `tailwind.config.js`: build configuration.
- Unicode case mapping and non-ASCII white space: `toUpperCase`, `trim` and `\s` are modelled on ASCII.
- UTF-16 code units: strings are sequences of Unicode scalar values, while JavaScript's `length`, `substring`, `slice`, indexing and `charCodeAt` count UTF-16 code units. Text with a character outside the Basic Multilingual Plane (an emoji, say) gets different lengths and offsets in the model. For example `"IT60X054281110100000012345😀"` is 28 units long to `checkIBAN` ("troppo lungo") but 27 characters to `Facade.Classify`.
- `parseInt` of the JSON `CAB` and `Range` fields: the rows arrive as integers, so a `NaN` record is not modelled.
- Checksum.IsIbanValidIffMod97: characterises the check only for `[A-Z0-9]` text. For other characters the model follows the loops, including `parseInt` stopping at a non-digit, within the limits of the string model below.
- A CIN check-character computation and a ranking of corrections: neither exists in the code.
