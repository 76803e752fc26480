/** The text clean-up that runs over every returned record: a character
    re-coding, sixteen replacements of mis-decoded characters, `strip` and
    the spacing repair, applied to the five text fields that are non-empty. */
module Cleanup {
  import opened Text
  import opened Subst
  import opened Normalize
  import opened Records

  /** The replacements, in source order. */
  const ArtifactRules: seq<Rule> := [
    Literal("\U{E2}\U{20AC}\U{AF}", " "),
    Literal("\U{E2}\U{20AC}\U{201C}", "-"),
    Literal("\U{E2}\U{20AC}\U{201D}", "-"),
    Literal("\U{C2}", ""),
    Literal("\U{C3}", ""),
    Literal("\U{202F}", " "),
    Literal("\U{A0}", " "),
    Literal("\U{2020}", ""),
    Literal("\U{A4}", ""),
    Literal("\U{2030}", ""),
    Literal("\U{153}", "oe"),
    Literal("\U{201D}", ""),
    Literal("\U{201C}", ""),
    Literal("\U{2018}", ""),
    Literal("\U{2019}", ""),
    Literal("\U{FFFD}", "")
  ]

  predicate IsAscii(s: string)
  {
    forall i :: 0 <= i < |s| ==> s[i] < '\U{80}'
  }

  /** A replacement of one non-ASCII character by ASCII text. */
  predicate RemovesChar(rule: Rule, c: char)
  {
    rule.Literal? && rule.pat == [c] && IsAscii(rule.rep)
  }

  /** Every replacement writes ASCII text only. */
  lemma ArtifactRulesAscii()
    ensures forall k :: 0 <= k < |ArtifactRules| ==> ArtifactRules[k].Literal? && IsAscii(ArtifactRules[k].rep)
  {
  }

  /** The value of one field after clean-up. `recode` stands for the round
      trip through the latin-1 encoder and the UTF-8 decoder, both dropping
      what they cannot convert. */
  function CleanText(v: string, recode: string -> string): (r: string)
    ensures Trimmed(r)
  {
    NormalizeSpacing(Strip(SubAll(ArtifactRules, recode(v))))
  }

  lemma {:induction false} AsciiRulesAbsent(rules: seq<Rule>, s: string, c: char)
    requires c !in s && c >= '\U{80}'
    requires forall k :: 0 <= k < |rules| ==> rules[k].Literal? && IsAscii(rules[k].rep)
    ensures c !in SubAll(rules, s)
  {
    SubAllAbsent(rules, s, c);
  }

  /** A character that one replacement removes outright never appears in
      a cleaned value: later replacements write ASCII only, and `strip` and
      the spacing repair add nothing but spaces and commas. */
  lemma CleanTextRemoves(v: string, recode: string -> string, k: nat, c: char)
    requires k < |ArtifactRules| && RemovesChar(ArtifactRules[k], c) && c >= '\U{80}'
    ensures c !in CleanText(v, recode)
  {
    var u := SubAll(ArtifactRules, recode(v));
    ArtifactRulesAscii();
    RulesRemove(ArtifactRules, recode(v), k, c);
    StripAbsent(u, c);
    NormalizeIntroducesOnly(Strip(u), c);
  }

  lemma {:induction false} RulesRemove(rules: seq<Rule>, s: string, k: nat, c: char)
    requires k < |rules| && RemovesChar(rules[k], c) && c >= '\U{80}'
    requires forall m :: 0 <= m < |rules| ==> rules[m].Literal? && IsAscii(rules[m].rep)
    ensures c !in SubAll(rules, s)
    decreases k
  {
    var t := Sub(rules[0], s);
    if k == 0 {
      SubRemoves(c, rules[0].rep, s);
      AsciiRulesAbsent(rules[1..], t, c);
    } else {
      RulesRemove(rules[1..], t, k - 1, c);
    }
  }

  /** The characters removed outright: Â, Ã, the narrow and the ordinary
      no-break space, †, ¤, ‰, œ, the four curly quotes and the
      replacement character. */
  lemma CleanTextRemovesAll(v: string, recode: string -> string)
    ensures forall c :: c in RemovedChars ==> c !in CleanText(v, recode)
  {
    forall c | c in RemovedChars ensures c !in CleanText(v, recode) {
      var k := RemovedAt(c);
      CleanTextRemoves(v, recode, k, c);
    }
  }

  /** Where in the chain each removed character is replaced. */
  lemma RemovedAt(c: char) returns (k: nat)
    requires c in RemovedChars
    ensures k < |ArtifactRules| && RemovesChar(ArtifactRules[k], c) && c >= '\U{80}'
  {
    k := if c == '\U{C2}' then 3 else if c == '\U{C3}' then 4
      else if c == '\U{202F}' then 5 else if c == '\U{A0}' then 6
      else if c == '\U{2020}' then 7 else if c == '\U{A4}' then 8
      else if c == '\U{2030}' then 9 else if c == '\U{153}' then 10
      else if c == '\U{201D}' then 11 else if c == '\U{201C}' then 12
      else if c == '\U{2018}' then 13 else if c == '\U{2019}' then 14
      else 15;
  }

  const RemovedChars: set<char> := {
    '\U{C2}', '\U{C3}', '\U{202F}', '\U{A0}', '\U{2020}', '\U{A4}', '\U{2030}',
    '\U{153}', '\U{201D}', '\U{201C}', '\U{2018}', '\U{2019}', '\U{FFFD}' }

  /** A cleaned value keeps the spacing repair's guarantee. */
  lemma CleanTextSeparates(v: string, recode: string -> string)
    ensures NoGlue(LowersAndDigits, CleanText(v, recode))
  {
    NormalizeSeparates(Strip(SubAll(ArtifactRules, recode(v))));
  }

  /** A replacement whose pattern is not the single character `c` copies
      the text "c". */
  lemma OneCharQuiet(rule: Rule, c: char)
    requires rule.Literal? && rule.pat != [] && rule.pat != [c]
    ensures Sub(rule, [c]) == [c]
  {
    var s := [c];
    forall j | 0 <= j < |s| ensures MatchAt(rule, s, j).None? {
      if |rule.pat| == 1 {
        assert s[0..1] == [c];
      }
    }
    SubWithoutMatch(rule, s);
  }

  lemma {:induction false} SubAllOfEmpty(rules: seq<Rule>)
    ensures SubAll(rules, []) == []
  {
    if rules != [] {
      assert Sub(rules[0], []) == [];
      SubAllOfEmpty(rules[1..]);
    }
  }

  /** The text "c" is taken to nothing by a chain whose rule `k` deletes
      `c` and whose earlier rules replace other text. */
  lemma {:induction false} ChainDeletes(rules: seq<Rule>, k: nat, c: char)
    requires k < |rules| && rules[k] == Literal([c], "")
    requires forall m :: 0 <= m < k ==> rules[m].Literal? && rules[m].pat != [] && rules[m].pat != [c]
    ensures SubAll(rules, [c]) == []
  {
    if k == 0 {
      var st := StepOf(rules[0]);
      assert [c][0..1] == [c];
      assert st([c], 0) == Hit(1, "");
      assert Scan(st, [c], 1) == [];
      assert Scan(st, [c], 0) == "" + Scan(st, [c], 1);
      SubAllOfEmpty(rules[1..]);
    } else {
      OneCharQuiet(rules[0], c);
      ChainDeletes(rules[1..], k - 1, c);
    }
  }

  lemma QuoteDeletedAt()
    ensures ArtifactRules[14] == Literal("\U{2019}", "")
    ensures forall m :: 0 <= m < 14 ==> ArtifactRules[m].Literal? && ArtifactRules[m].pat != []
                                         && ArtifactRules[m].pat != "\U{2019}"
  {
  }

  /** The artifact replacements take "’" and "" to nothing. */
  lemma ArtifactsEmptyQuote(t: string)
    requires t == "\U{2019}" || t == []
    ensures SubAll(ArtifactRules, t) == []
  {
    if t == [] {
      SubAllOfEmpty(ArtifactRules);
    } else {
      QuoteDeletedAt();
      ChainDeletes(ArtifactRules, 14, '\U{2019}');
    }
  }

  /** A value the replacements empty is cleaned to nothing. */
  lemma CleanTextOfEmptied(v: string, recode: string -> string)
    requires SubAll(ArtifactRules, recode(v)) == []
    ensures CleanText(v, recode) == []
  {
    assert Strip([]) == [];
  }

  /** A one-character airline that is not a digit passes the filter. */
  lemma OneCharAccepted(a: string)
    requires |a| == 1 && !IsDigit(a[0])
    ensures !RejectedAirline(a)
  {
    assert a != "N/A" by { assert |"N/A"| == 3; }
  }

  /** Clean-up can empty an airline that passed the filter: "’" is neither
      empty, "N/A" nor all digits, and its cleaned value is empty, whether
      the re-coding keeps the character or drops it. */
  lemma CleanupEmptiesAirline(recode: string -> string)
    requires recode("\U{2019}") == "\U{2019}" || recode("\U{2019}") == []
    ensures !RejectedAirline("\U{2019}")
    ensures CleanText("\U{2019}", recode) == []
  {
    OneCharAccepted("\U{2019}");
    ArtifactsEmptyQuote(recode("\U{2019}"));
    CleanTextOfEmptied("\U{2019}", recode);
  }

  // ---------------------------------------------------------------------
  // Records

  /** The keys the clean-up loop visits. */
  datatype Field = Departure | Arrival | Airline | Duration | Stops

  const CleanedFields: seq<Field> := [Departure, Arrival, Airline, Duration, Stops]

  function Get(r: FlightRecord, k: Field): string
  {
    match k
    case Departure => r.departure
    case Arrival => r.arrival
    case Airline => r.airline
    case Duration => r.duration
    case Stops => r.stops
  }

  function Set(r: FlightRecord, k: Field, v: string): (r': FlightRecord)
    ensures Get(r', k) == v
    ensures forall k' :: k' != k ==> Get(r', k') == Get(r, k')
    ensures r'.price == r.price && r'.priceNumber == r.priceNumber
  {
    match k
    case Departure => r.(departure := v)
    case Arrival => r.(arrival := v)
    case Airline => r.(airline := v)
    case Duration => r.(duration := v)
    case Stops => r.(stops := v)
  }

  /** One pass of the inner loop: the field is cleaned when it is
      non-empty (`if f.get(k)`) and left alone otherwise. */
  function CleanField(r: FlightRecord, k: Field, recode: string -> string): (r': FlightRecord)
    ensures r'.price == r.price && r'.priceNumber == r.priceNumber
  {
    if Get(r, k) == [] then r else Set(r, k, CleanText(Get(r, k), recode))
  }

  function CleanFields(r: FlightRecord, ks: seq<Field>, recode: string -> string): (r': FlightRecord)
    ensures r'.price == r.price && r'.priceNumber == r.priceNumber
  {
    if ks == [] then r
    else CleanField(CleanFields(r, ks[..|ks| - 1], recode), ks[|ks| - 1], recode)
  }

  lemma CleanFieldsSnoc(r: FlightRecord, ks: seq<Field>, m: nat, recode: string -> string)
    requires m < |ks|
    ensures CleanFields(r, ks[..m + 1], recode) == CleanField(CleanFields(r, ks[..m], recode), ks[m], recode)
  {
    assert ks[..m + 1][..m] == ks[..m];
  }

  /** The record after the inner loop over the five keys. */
  function CleanRecord(r: FlightRecord, recode: string -> string): (r': FlightRecord)
    ensures r'.price == r.price && r'.priceNumber == r.priceNumber
  {
    CleanFields(r, CleanedFields, recode)
  }

  lemma {:induction false} CleanFieldsGet(r: FlightRecord, ks: seq<Field>, recode: string -> string, k: Field)
    requires forall i, j :: 0 <= i < j < |ks| ==> ks[i] != ks[j]
    ensures CleanFields(r, ks, recode).price == r.price
    ensures CleanFields(r, ks, recode).priceNumber == r.priceNumber
    ensures Get(CleanFields(r, ks, recode), k)
            == if k in ks && Get(r, k) != [] then CleanText(Get(r, k), recode) else Get(r, k)
  {
    if ks != [] {
      var init := ks[..|ks| - 1];
      CleanFieldsGet(r, init, recode, k);
      CleanFieldStep(CleanFields(r, init, recode), ks[|ks| - 1], recode, k);
      assert k in ks <==> k in init || k == ks[|ks| - 1];
      if k == ks[|ks| - 1] {
        assert k !in init;
      }
    }
  }

  /** One pass of the inner loop changes field `k'` only, and only when it
      is non-empty. */
  lemma CleanFieldStep(r: FlightRecord, k': Field, recode: string -> string, k: Field)
    ensures CleanField(r, k', recode).price == r.price
    ensures CleanField(r, k', recode).priceNumber == r.priceNumber
    ensures Get(CleanField(r, k', recode), k)
            == if k == k' && Get(r, k) != [] then CleanText(Get(r, k), recode) else Get(r, k)
  {
  }

  /** Clean-up keeps the price and cleans each of the five text fields
      once, from its own value, when it is non-empty. */
  lemma CleanRecordFields(r: FlightRecord, recode: string -> string, k: Field)
    ensures CleanRecord(r, recode).price == r.price
    ensures CleanRecord(r, recode).priceNumber == r.priceNumber
    ensures Get(CleanRecord(r, recode), k)
            == if Get(r, k) == [] then [] else CleanText(Get(r, k), recode)
  {
    CleanedFieldsFacts();
    CleanFieldsEach(r, CleanedFields, recode, k);
  }

  lemma CleanedFieldsFacts()
    ensures forall i, j :: 0 <= i < j < |CleanedFields| ==> CleanedFields[i] != CleanedFields[j]
    ensures forall k :: k in CleanedFields
  {
    forall k ensures k in CleanedFields {
      match k
      case Departure => assert CleanedFields[0] == k;
      case Arrival => assert CleanedFields[1] == k;
      case Airline => assert CleanedFields[2] == k;
      case Duration => assert CleanedFields[3] == k;
      case Stops => assert CleanedFields[4] == k;
    }
  }

  /** The inner loop over distinct keys that include `k` cleans field `k`. */
  lemma CleanFieldsEach(r: FlightRecord, ks: seq<Field>, recode: string -> string, k: Field)
    requires forall i, j :: 0 <= i < j < |ks| ==> ks[i] != ks[j]
    requires k in ks
    ensures CleanFields(r, ks, recode).price == r.price
    ensures CleanFields(r, ks, recode).priceNumber == r.priceNumber
    ensures Get(CleanFields(r, ks, recode), k)
            == if Get(r, k) == [] then [] else CleanText(Get(r, k), recode)
  {
    CleanFieldsGet(r, ks, recode, k);
  }

  /** No cleaned field holds a character the replacements remove outright. */
  lemma CleanRecordRemoves(r: FlightRecord, recode: string -> string, k: Field, c: char)
    requires c in RemovedChars
    ensures c !in Get(CleanRecord(r, recode), k)
  {
    CleanRecordFields(r, recode, k);
    if Get(r, k) != [] {
      CleanTextRemovesAll(Get(r, k), recode);
    }
  }

  /** The clean-up loop, updating each record in place. */
  method CleanRecords(a: array<FlightRecord>, recode: string -> string)
    modifies a
    ensures forall i :: 0 <= i < a.Length ==> a[i] == CleanRecord(old(a[i]), recode)
  {
    for i := 0 to a.Length
      invariant forall j :: 0 <= j < i ==> a[j] == CleanRecord(old(a[j]), recode)
      invariant forall j :: i <= j < a.Length ==> a[j] == old(a[j])
    {
      CleanRecordAt(a, i, recode);
    }
  }

  /** The inner loop over the five keys of record `i`. */
  method CleanRecordAt(a: array<FlightRecord>, i: nat, recode: string -> string)
    requires i < a.Length
    modifies a
    ensures a[i] == CleanRecord(old(a[i]), recode)
    ensures forall j :: 0 <= j < a.Length && j != i ==> a[j] == old(a[j])
  {
    for m := 0 to |CleanedFields|
      invariant a[i] == CleanFields(old(a[i]), CleanedFields[..m], recode)
      invariant forall j :: 0 <= j < a.Length && j != i ==> a[j] == old(a[j])
    {
      var k := CleanedFields[m];
      CleanFieldsSnoc(old(a[i]), CleanedFields, m, recode);
      a[i] := CleanField(a[i], k, recode);
    }
    assert CleanedFields[..|CleanedFields|] == CleanedFields;
  }
}
