/** The bank directory: the pure part of `loadBankData` that turns the already-parsed ABI and CAB
    tables into the lookup structures, and the two lookups `getBankName` and `getComuneAndSigla`.
    The directory is an explicit value handed to every caller instead of global state. */
module Data {
  import opened Text
  import opened Utils
  import opened Wrappers

  /** One row of the ABI table: a bank code and the bank's name. */
  datatype AbiItem = AbiItem(abi: string, denominazione: string)

  /** One row of the CAB table with its `CAB` and `Range` fields already read as integers. */
  datatype CabEntry = CabEntry(cab: int, range: int, denominazione: string, tipo: string, sigla: string)

  /** A branch-code range record: the codes `base..upper` (inclusive) belong to one comune. */
  datatype CabRecord = CabRecord(base: int, upper: int, denominazione: string, tipo: string, range: int, sigla: string)

  /** The reference directory: bank code to bank name, and the CAB records sorted by `base`. */
  datatype Directory = Directory(abi: map<string, string>, cabs: seq<CabRecord>)

  /** Location text shown for a branch: the comune's name and `" (XX)"` for its province, or "". */
  datatype Place = Place(comune: string, sigla: string)

  /** The ABI dictionary built by `forEach` assignments in table order: its keys are exactly the
      table's codes. */
  function BuildAbiDictionary(items: seq<AbiItem>): (m: map<string, string>)
    ensures m.Keys == set i | 0 <= i < |items| :: items[i].abi
    decreases |items|
  {
    if |items| == 0 then map[]
    else
      var init := items[..|items| - 1];
      var last := items[|items| - 1];
      var m := BuildAbiDictionary(init)[last.abi := last.denominazione];
      assert forall i :: 0 <= i < |items| - 1 ==> items[i] == init[i];
      m
  }

  /** Last write wins: a code's name is the one on the last row carrying that code. */
  lemma {:induction false} AbiLastWriteWins(items: seq<AbiItem>, i: nat)
    requires i < |items|
    requires forall j :: i < j < |items| ==> items[j].abi != items[i].abi
    ensures BuildAbiDictionary(items)[items[i].abi] == items[i].denominazione
    decreases |items|
  {
    if i < |items| - 1 {
      var init := items[..|items| - 1];
      assert init[i] == items[i];
      AbiLastWriteWins(init, i);
    }
  }

  /** The record made from one CAB row: `upper = base + Range`. */
  function ToCabRecord(e: CabEntry): CabRecord {
    CabRecord(e.cab, e.cab + e.range, e.denominazione, e.tipo, e.range, e.sigla)
  }

  predicate SortedByBase(s: seq<CabRecord>) {
    forall i, j :: 0 <= i < j < |s| ==> s[i].base <= s[j].base
  }

  /** The records of `s` whose `base` is `b`, in the order of `s`. */
  function WithBase(s: seq<CabRecord>, b: int): seq<CabRecord> {
    if |s| == 0 then []
    else (if s[0].base == b then [s[0]] else []) + WithBase(s[1..], b)
  }

  /** Inserts `x` in front of every record whose base is not smaller. */
  function InsertByBase(x: CabRecord, s: seq<CabRecord>): (r: seq<CabRecord>)
    requires SortedByBase(s)
    ensures |r| == |s| + 1
    ensures r[0] == x || (|s| > 0 && r[0] == s[0])
    ensures SortedByBase(r)
    ensures multiset(r) == multiset(s) + multiset{x}
  {
    if |s| == 0 || x.base <= s[0].base then
      [x] + s
    else
      var rest := InsertByBase(x, s[1..]);
      assert s == [s[0]] + s[1..];
      var r := [s[0]] + rest;
      assert r[1..] == rest;
      assert multiset(r) == multiset{s[0]} + multiset(rest);
      r
  }

  lemma {:induction false} WithBaseConcat(a: seq<CabRecord>, c: seq<CabRecord>, b: int)
    ensures WithBase(a + c, b) == WithBase(a, b) + WithBase(c, b)
    decreases |a|
  {
    if |a| == 0 {
      assert a + c == c;
    } else {
      var ac := a + c;
      var head := if a[0].base == b then [a[0]] else [];
      assert ac[0] == a[0] && ac[1..] == a[1..] + c;
      assert WithBase(ac, b) == head + WithBase(a[1..] + c, b);
      assert WithBase(a, b) == head + WithBase(a[1..], b);
      WithBaseConcat(a[1..], c, b);
      assert head + (WithBase(a[1..], b) + WithBase(c, b)) == (head + WithBase(a[1..], b)) + WithBase(c, b);
    }
  }

  lemma WithBaseSingle(x: CabRecord, b: int)
    ensures WithBase([x], b) == if x.base == b then [x] else []
  {
    assert [x][1..] == [];
  }

  /** Insertion puts `x` before the records of equal base, as if it were listed first. */
  lemma {:induction false} InsertKeepsOrder(x: CabRecord, s: seq<CabRecord>, b: int)
    requires SortedByBase(s)
    ensures WithBase(InsertByBase(x, s), b) == WithBase([x] + s, b)
    decreases |s|
  {
    if !(|s| == 0 || x.base <= s[0].base) {
      var head, tail := s[0], s[1..];
      var rest := InsertByBase(x, tail);
      assert InsertByBase(x, s) == [head] + rest;
      assert s == [head] + tail;
      InsertKeepsOrder(x, tail, b);
      WithBaseConcat([head], rest, b);
      WithBaseConcat([x], tail, b);
      WithBaseConcat([head], tail, b);
      WithBaseConcat([x], s, b);
      WithBaseSingle(head, b);
      WithBaseSingle(x, b);
      var wh, wx, wt := WithBase([head], b), WithBase([x], b), WithBase(tail, b);
      assert WithBase(InsertByBase(x, s), b) == wh + (wx + wt);
      assert WithBase([x] + s, b) == wx + (wh + wt);
      assert wh == [] || wx == [];
    }
  }

  /** `sort((a, b) => a.base - b.base)`: ascending by `base`, a permutation of its input. */
  function SortByBase(s: seq<CabRecord>): (r: seq<CabRecord>)
    ensures SortedByBase(r)
    ensures multiset(r) == multiset(s)
  {
    if |s| == 0 then []
    else
      assert s == [s[0]] + s[1..];
      InsertByBase(s[0], SortByBase(s[1..]))
  }

  /** The sort is stable: for every base, the records carrying it keep their input order. */
  lemma {:induction false} SortIsStable(s: seq<CabRecord>, b: int)
    ensures WithBase(SortByBase(s), b) == WithBase(s, b)
    decreases |s|
  {
    if |s| > 0 {
      var sorted := SortByBase(s[1..]);
      InsertKeepsOrder(s[0], sorted, b);
      SortIsStable(s[1..], b);
      WithBaseConcat([s[0]], sorted, b);
      WithBaseConcat([s[0]], s[1..], b);
      assert s == [s[0]] + s[1..];
    }
  }

  /** The CAB list: one record per row with `upper = base + Range`, sorted ascending by `base`
      (records with equal `base` keep their table order). */
  function BuildCabList(entries: seq<CabEntry>): (r: seq<CabRecord>)
    ensures SortedByBase(r)
    ensures multiset(r) == multiset(seq(|entries|, i requires 0 <= i < |entries| => ToCabRecord(entries[i])))
    ensures forall i :: 0 <= i < |r| ==> r[i].upper == r[i].base + r[i].range
  {
    var records := seq(|entries|, i requires 0 <= i < |entries| => ToCabRecord(entries[i]));
    var r := SortByBase(records);
    assert forall i :: 0 <= i < |r| ==> r[i] in records by {
      forall i | 0 <= i < |r| ensures r[i] in records {
        assert r[i] in multiset(r);
      }
    }
    r
  }

  /** The rows of a table that may have failed to load (`null`): none when it failed. */
  function Rows<T>(data: Option<seq<T>>): seq<T> {
    if data.Some? then data.value else []
  }

  /** `loadBankData` after the fetches: the bank codes are exactly the codes of the ABI rows, each
      naming the bank on the last row that carries it; the branch records are the CAB rows with
      `upper = base + Range`, each once, sorted by `base`. A table that failed to load (`null`)
      leaves its part of the directory empty. */
  function LoadDirectory(abiData: Option<seq<AbiItem>>, cabData: Option<seq<CabEntry>>): (d: Directory)
    ensures abiData.None? ==> d.abi == map[]
    ensures cabData.None? ==> d.cabs == []
    ensures abiData.Some? ==> d.abi == BuildAbiDictionary(abiData.value)
    ensures cabData.Some? ==> d.cabs == BuildCabList(cabData.value)
    ensures var items := Rows(abiData);
      && d.abi.Keys == (set i | 0 <= i < |items| :: items[i].abi)
      && forall i :: 0 <= i < |items| && (forall j :: i < j < |items| ==> items[j].abi != items[i].abi) ==>
           d.abi[items[i].abi] == items[i].denominazione
    ensures var entries := Rows(cabData);
      && SortedByBase(d.cabs)
      && multiset(d.cabs) == multiset(seq(|entries|, i requires 0 <= i < |entries| => ToCabRecord(entries[i])))
  {
    var items, entries := Rows(abiData), Rows(cabData);
    var d := Directory(
      if abiData.Some? then BuildAbiDictionary(abiData.value) else map[],
      if cabData.Some? then BuildCabList(cabData.value) else []);
    assert forall i :: 0 <= i < |items| && (forall j :: i < j < |items| ==> items[j].abi != items[i].abi) ==>
        d.abi[items[i].abi] == items[i].denominazione by {
      forall i | 0 <= i < |items| && (forall j :: i < j < |items| ==> items[j].abi != items[i].abi)
        ensures d.abi[items[i].abi] == items[i].denominazione
      {
        AbiLastWriteWins(items, i);
      }
    }
    d
  }

  /** The inclusive range test `numericCAB >= rec.base && numericCAB <= rec.upper`. */
  predicate Covers(rec: CabRecord, n: int) {
    rec.base <= n <= rec.upper
  }

  /** `cabList.find(...)`: the first record in list order whose range covers `n`. */
  function FirstCovering(cabs: seq<CabRecord>, n: int): (r: Option<CabRecord>)
    ensures r.None? <==> forall i :: 0 <= i < |cabs| ==> !Covers(cabs[i], n)
    ensures r.Some? ==> exists i :: (0 <= i < |cabs| && cabs[i] == r.value && Covers(cabs[i], n)
      && forall j :: 0 <= j < i ==> !Covers(cabs[j], n))
  {
    if |cabs| == 0 then None
    else if Covers(cabs[0], n) then Some(cabs[0])
    else
      var r := FirstCovering(cabs[1..], n);
      assert forall i :: 1 <= i < |cabs| ==> cabs[i] == cabs[1..][i - 1];
      r
  }

  /** The ABI field as `getBankName` reads it: white space removed, no upper-casing, chars 5..10. */
  function AbiField(raw: string): string {
    Substring(RemoveWhitespace(raw), 5, 10)
  }

  /** The CAB field as `getComuneAndSigla` reads it: white space removed, chars 10..15. */
  function CabField(raw: string): string {
    Substring(RemoveWhitespace(raw), 10, 15)
  }

  const UnknownBank := "Banca Sconosciuta"
  const UnknownComune := "Comune sconosciuto"

  /** `getBankName`: the dictionary's name for the ABI field when it has a non-empty one, otherwise
      "Banca Sconosciuta". The name shown is never empty, and it is a name from the directory unless
      it is the fallback. On text of at least 10 characters after white-space removal the field is
      characters 5..10 of that text. */
  function GetBankName(d: Directory, raw: string): (name: string)
    ensures AbiField(raw) in d.abi && d.abi[AbiField(raw)] != "" ==> name == d.abi[AbiField(raw)]
    ensures AbiField(raw) !in d.abi || d.abi[AbiField(raw)] == "" ==> name == UnknownBank
    ensures name != ""
    ensures name == UnknownBank || name in d.abi.Values
    ensures var t := RemoveWhitespace(raw);
      |t| >= 10 ==>
        && (t[5..10] in d.abi && d.abi[t[5..10]] != "" ==> name == d.abi[t[5..10]])
        && (t[5..10] !in d.abi ==> name == UnknownBank)
  {
    var abi := AbiField(raw);
    if abi in d.abi && d.abi[abi] != "" then d.abi[abi] else UnknownBank
  }

  /** `getComuneAndSigla`: "N/D" for a CAB field that is not five digits; otherwise the first record
      in list order whose inclusive range holds the code, or "Comune sconosciuto" when none does. */
  function GetComuneAndSigla(d: Directory, raw: string): (p: Place)
    ensures !IsDigitString(CabField(raw), 5) ==> p == Place("N/D", "")
    ensures IsDigitString(CabField(raw), 5) ==>
      var n := Value(CabField(raw));
      && ((forall i :: 0 <= i < |d.cabs| ==> !Covers(d.cabs[i], n)) ==> p == Place(UnknownComune, ""))
      && (forall i :: (0 <= i < |d.cabs| && Covers(d.cabs[i], n)
            && (forall j :: 0 <= j < i ==> !Covers(d.cabs[j], n))) ==>
            && p.comune == d.cabs[i].denominazione
            && (p.sigla != "" <==> d.cabs[i].sigla != "")
            && (p.sigla != "" ==> p.sigla == " (" + d.cabs[i].sigla + ")"))
  {
    var cab := CabField(raw);
    if !IsDigitString(cab, 5) then Place("N/D", "")
    else
      match FirstCovering(d.cabs, Value(cab))
      case None => Place(UnknownComune, "")
      case Some(rec) => Place(rec.denominazione, if rec.sigla != "" then " (" + rec.sigla + ")" else "")
  }
}
