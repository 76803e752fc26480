/** The field extractors of googleflights_auto.py: `first_line`,
    `extract_price`, `extract_airline`, the `get_text` helper of the scraper
    and the duration clean-up of the record builder. */
module Extract {
  import opened Text
  import opened Subst

  // ---------------------------------------------------------------------
  // get_text

  /** What the scraper finds for one selector of a listing. */
  datatype Element = Absent | Unreadable | Present(innerText: string)

  /** `get_text(el)`: the stripped inner text, or "N/A" when the element is
      missing or reading its text fails. */
  function GetText(el: Element): (r: string)
    ensures r == "N/A" || Trimmed(r)
  {
    match el
    case Present(t) => Strip(t)
    case _ => "N/A"
  }

  /** The text is empty exactly when the element's text is blank, and
      otherwise holds a non-whitespace character. */
  lemma GetTextShape(el: Element)
    ensures el.Present? ==> (GetText(el) == [] <==> !HasNonSpace(el.innerText))
    ensures GetText(el) == [] || HasNonSpace(GetText(el))
  {
    match el
    case Present(t) =>
      StripEmpty(t);
      var r := Strip(t);
      assert r != [] ==> !IsSpace(r[0]);
    case _ =>
      assert !IsSpace("N/A"[0]);
  }

  // ---------------------------------------------------------------------
  // first_line

  /** `first_line` only runs without error on text that is empty or holds a
      non-whitespace character: on blank, non-empty text `splitlines()` of
      the stripped text is empty and indexing it fails. */
  predicate FirstLineDefined(s: string)
  {
    s == [] || HasNonSpace(s)
  }

  /** `first_line(s)`: the first line of the stripped text, stripped. */
  function FirstLine(s: string): (r: string)
    requires FirstLineDefined(s)
    ensures s == [] ==> r == []
  {
    if s == [] then []
    else
      var t := Strip(s);
      Strip(t[..FirstBreak(t)])
  }

  /** On text with a non-whitespace character, `first_line` is the
      non-empty run of text that starts at the first non-whitespace
      character and stops, before any whitespace, at the line's end. */
  lemma FirstLineShape(s: string) returns (a: nat, n: nat)
    requires HasNonSpace(s)
    ensures a == LeadingSpaces(s) && n == |FirstLine(s)|
    ensures FirstLine(s) != [] && Trimmed(FirstLine(s)) && NoLineBreak(FirstLine(s))
    ensures a + n <= |s| && FirstLine(s) == s[a..a + n] && EndsAtSpace(s, a + n)
    ensures forall j :: a + n <= j < a + FirstBreak(s[a..]) ==> IsSpace(s[j])
  {
    var e, b;
    a, e, b := FirstLineSlice(s);
    LiftSlice(s, a, e, b);
    n := b;
  }

  lemma FirstLineSlice(s: string) returns (a: nat, e: nat, b: nat)
    requires HasNonSpace(s)
    ensures a == LeadingSpaces(s) && a < e <= |s| && 1 <= b <= e - a
    ensures FirstLine(s) == s[a..e][..b] && NoLineBreak(FirstLine(s))
    ensures b < e - a ==> IsSpace(s[a..e][b])
    ensures e < |s| ==> IsSpace(s[e])
    ensures forall j :: a + b <= j < a + FirstBreak(s[a..]) ==> IsSpace(s[j])
  {
    var t := Strip(s);
    a, e := StripSlice(s);
    b := FirstLineOfStripped(t);
    RestOfFirstLine(s, a, e, b);
  }

  /** Between the end of the first line's text and its line break (or the
      end of `s`) there is only whitespace. */
  lemma RestOfFirstLine(s: string, a: nat, e: nat, b: nat)
    requires a < e <= |s| && b <= e - a
    requires forall j :: e <= j < |s| ==> IsSpace(s[j])
    requires forall j :: b <= j < FirstBreak(s[a..e]) ==> IsSpace(s[a..e][j])
    ensures forall j :: a + b <= j < a + FirstBreak(s[a..]) ==> IsSpace(s[j])
  {
    var t, u := s[a..e], s[a..];
    var k := FirstBreak(t);
    FirstBreakSpec(t);
    FirstBreakSpec(u);
    if k < |t| {
      assert u[k] == t[k];
      assert forall j :: 0 <= j < k ==> u[j] == t[j];
      FirstBreakIs(u, k);
    }
    forall j | a + b <= j < a + FirstBreak(u) ensures IsSpace(s[j]) {
      if j < e {
        assert s[j] == t[j - a];
      }
    }
  }

  /** The first line of stripped text is a prefix of it, ended by whitespace. */
  lemma FirstLineOfStripped(t: string) returns (b: nat)
    requires t != [] && !IsSpace(t[0])
    ensures 1 <= b <= |t| && Strip(t[..FirstBreak(t)]) == t[..b]
    ensures b < |t| ==> IsSpace(t[b])
    ensures NoLineBreak(t[..b])
    ensures forall j :: b <= j < FirstBreak(t) ==> IsSpace(t[j])
  {
    var k := FirstBreak(t);
    FirstBreakSpec(t);
    LineBreakIsSpace(t[0]);
    var u := t[..k];
    b := StripFromText(u);
    assert u[..b] == t[..b];
    forall j | b <= j < k ensures IsSpace(t[j]) {
      assert t[j] == u[j];
    }
    if b < k {
      assert t[b] == u[b];
    } else if k < |t| {
      LineBreakIsSpace(t[k]);
    }
  }

  /** Position `j` is the end of `s` or holds whitespace. */
  predicate EndsAtSpace(s: string, j: nat)
  {
    j == |s| || (j < |s| && IsSpace(s[j]))
  }

  lemma LiftSlice(s: string, a: nat, e: nat, b: nat)
    requires a < e <= |s| && 1 <= b <= e - a
    requires b < e - a ==> IsSpace(s[a..e][b])
    requires e < |s| ==> IsSpace(s[e])
    ensures s[a..e][..b] == s[a..a + b]
    ensures EndsAtSpace(s, a + b)
  {
    if b < e - a {
      assert s[a..e][b] == s[a + b];
    }
  }

  /** Text that starts with a non-space character strips to a prefix. */
  lemma StripFromText(u: string) returns (b: nat)
    requires u != [] && !IsSpace(u[0])
    ensures 1 <= b <= |u| && Strip(u) == u[..b]
    ensures b < |u| ==> IsSpace(u[b])
    ensures forall j :: b <= j < |u| ==> IsSpace(u[j])
  {
    assert LeadingSpaces(u) == 0;
    b := TrailingEnd(u);
  }

  // ---------------------------------------------------------------------
  // extract_price

  predicate IsCurrency(c: char)
  {
    c == '$' || c == '\U{20AC}' || c == '\U{A3}'
  }

  /** The pattern `[$€£]\s?\d[\d,]*` matches at position `i`. */
  predicate PriceAt(s: string, i: nat)
  {
    && i + 1 < |s|
    && IsCurrency(s[i])
    && (IsDigit(s[i + 1]) || (i + 2 < |s| && IsSpace(s[i + 1]) && IsDigit(s[i + 2])))
  }

  /** End of the greedy `[\d,]*` run starting at `j`. */
  function AmountEnd(s: string, j: nat): (e: nat)
    requires j <= |s|
    ensures j <= e <= |s|
    ensures forall k :: j <= k < e ==> IsDigit(s[k]) || s[k] == ','
    ensures e < |s| ==> !IsDigit(s[e]) && s[e] != ','
    decreases |s| - j
  {
    if j < |s| && (IsDigit(s[j]) || s[j] == ',') then AmountEnd(s, j + 1) else j
  }

  /** End of the match that starts at `i`; `\s?` takes the whitespace when a
      digit follows it. */
  function PriceEnd(s: string, i: nat): (e: nat)
    requires PriceAt(s, i)
    ensures i + 2 <= e <= |s|
  {
    var d := if IsDigit(s[i + 1]) then i + 1 else i + 2;
    AmountEnd(s, d + 1)
  }

  /** `re.search`: the leftmost position at or after `i` where the price
      pattern matches. */
  function FirstPrice(s: string, i: nat): (k: Option<nat>)
    requires i <= |s|
    ensures k.Some? ==> i <= k.value < |s| && PriceAt(s, k.value)
                        && forall j :: i <= j < k.value ==> !PriceAt(s, j)
    ensures k.None? ==> forall j :: i <= j < |s| ==> !PriceAt(s, j)
    decreases |s| - i
  {
    if i == |s| then None
    else if PriceAt(s, i) then Some(i)
    else FirstPrice(s, i + 1)
  }

  /** The digits of `t`, in order: `re.sub(r"[^\d]", "", t)`. */
  function Digits(t: string): (r: string)
    ensures forall k :: 0 <= k < |r| ==> IsDigit(r[k])
  {
    if t == [] then []
    else if IsDigit(t[0]) then [t[0]] + Digits(t[1..])
    else Digits(t[1..])
  }

  /** `Digits` distributes over concatenation: every digit is kept, in order. */
  lemma {:induction false} DigitsConcat(a: string, b: string)
    ensures Digits(a + b) == Digits(a) + Digits(b)
  {
    if a == [] {
      assert a + b == b;
    } else {
      assert (a + b)[0] == a[0];
      assert (a + b)[1..] == a[1..] + b;
      DigitsConcat(a[1..], b);
    }
  }

  /** A string of digits is its own digit string. */
  lemma {:induction false} DigitsOfDigits(t: string)
    requires forall k :: 0 <= k < |t| ==> IsDigit(t[k])
    ensures Digits(t) == t
  {
    if t != [] {
      DigitsOfDigits(t[1..]);
    }
  }

  /** A string without digits has none to keep. */
  lemma {:induction false} DigitsOfNonDigits(t: string)
    requires forall k :: 0 <= k < |t| ==> !IsDigit(t[k])
    ensures Digits(t) == []
  {
    if t != [] {
      DigitsOfNonDigits(t[1..]);
    }
  }

  /** `int(ds)` for a string of decimal digits. */
  function DecimalValue(ds: string): (n: nat)
    requires forall k :: 0 <= k < |ds| ==> IsDigit(ds[k])
  {
    if ds == [] then 0
    else
      var c := ds[|ds| - 1];
      assert IsDigit(c);
      10 * DecimalValue(ds[..|ds| - 1]) + (c as int - '0' as int)
  }

  /** The display form of a price match: the matched text with its spaces
      removed (`.replace(" ", "")`). */
  function Display(s: string, i: nat): string
    requires PriceAt(s, i)
  {
    Sub(Literal(" ", ""), s[i..PriceEnd(s, i)])
  }

  /** `extract_price(s)`: the display form and the value of the first
      currency amount, or ("", None). */
  function ExtractPrice(s: string): (r: (string, Option<int>))
    ensures r.1.None? <==> r.0 == []
    ensures r.1.Some? ==> IsCurrency(r.0[0]) && ' ' !in r.0 && r.1.value >= 0
  {
    match FirstPrice(s, 0)
    case None => ("", None)
    case Some(i) =>
      DisplayShape(s, i);
      var disp := Display(s, i);
      (disp, Some(DecimalValue(Digits(disp))))
  }

  /** There is no price exactly when the pattern matches nowhere; otherwise
      the display form is the leftmost match without its spaces, starts
      with the currency sign, and the value is the number its digits spell. */
  lemma ExtractPriceSpec(s: string)
    ensures ExtractPrice(s).1.None? <==> forall j :: 0 <= j < |s| ==> !PriceAt(s, j)
    ensures ExtractPrice(s).1.None? ==> ExtractPrice(s).0 == []
    ensures ExtractPrice(s).1.Some? ==>
              var (disp, value) := ExtractPrice(s);
              && disp != [] && IsCurrency(disp[0]) && ' ' !in disp
              && Digits(disp) != [] && value.value == DecimalValue(Digits(disp))
    ensures ExtractPrice(s).1.Some? ==>
              exists i :: 0 <= i < |s| && PriceAt(s, i) && ExtractPrice(s).0 == Display(s, i)
                          && Digits(ExtractPrice(s).0) == Digits(s[i..PriceEnd(s, i)])
                          && forall j :: 0 <= j < i ==> !PriceAt(s, j)
  {
    match FirstPrice(s, 0)
    case None =>
    case Some(i) =>
      DisplayShape(s, i);
  }

  lemma {:induction false} DigitsOfCore(t: string)
    ensures Digits(Core(t)) == Digits(t)
  {
    if t != [] {
      DigitsOfCore(t[1..]);
      if !(IsSpace(t[0]) || t[0] == ',') {
        assert ([t[0]] + Core(t[1..]))[1..] == Core(t[1..]);
      }
    }
  }

  lemma {:induction false} DigitsNonEmpty(t: string, k: nat)
    requires k < |t| && IsDigit(t[k])
    ensures Digits(t) != []
  {
    if k > 0 && !IsDigit(t[0]) {
      DigitsNonEmpty(t[1..], k - 1);
    }
  }

  /** The display form starts with the currency sign, holds no space and
      keeps every digit of the match. */
  lemma DisplayShape(s: string, i: nat)
    requires PriceAt(s, i)
    ensures var disp := Display(s, i);
            disp != [] && IsCurrency(disp[0]) && ' ' !in disp && Digits(disp) != []
    ensures Digits(Display(s, i)) == Digits(s[i..PriceEnd(s, i)])
  {
    var m := s[i..PriceEnd(s, i)];
    var rule := Literal(" ", "");
    var disp := Sub(rule, m);
    SubRemoves(' ', "", m);
    assert MatchAt(rule, m, 0).None? by { assert m[0..1] != " "; }
    assert disp == [m[0]] + Scan(StepOf(rule), m, 1);
    SubCore(rule, m);
    DigitsOfCore(disp);
    DigitsOfCore(m);
    var d := if IsDigit(s[i + 1]) then 1 else 2;
    assert IsDigit(m[d]);
    DigitsNonEmpty(m, d);
  }

  // ---------------------------------------------------------------------
  // extract_airline

  /** The non-blank lines of `s`, each stripped. */
  function MeaningfulLines(s: string): (r: seq<string>)
    ensures forall i :: 0 <= i < |r| ==> r[i] != [] && Trimmed(r[i])
  {
    StrippedNonBlank(Lines(s))
  }

  /** `extract_airline(s)`: the last non-blank line with "round trip"
      removed, or "N/A". */
  function ExtractAirline(s: string): (r: string)
    ensures r != []
  {
    AirlineOfLines(MeaningfulLines(s))
  }

  /** The airline named by the meaningful lines. */
  function AirlineOfLines(lines: seq<string>): (r: string)
    ensures r != []
  {
    if lines == [] then "N/A"
    else
      var cand := Strip(Sub(Literal("round trip", ""), lines[|lines| - 1]));
      if cand == [] then "N/A" else cand
  }

  /** Blank text gives "N/A"; any other answer is one stripped line. */
  lemma ExtractAirlineShape(s: string)
    ensures !HasNonSpace(s) ==> ExtractAirline(s) == "N/A"
    ensures ExtractAirline(s) == "N/A" || (Trimmed(ExtractAirline(s)) && NoLineBreak(ExtractAirline(s)))
  {
    BlankAirline(s);
    AirlineIsLine(s);
  }

  lemma BlankAirline(s: string)
    ensures !HasNonSpace(s) ==> ExtractAirline(s) == "N/A"
  {
    LinesOfBlank(s);
  }

  lemma AirlineIsLine(s: string)
    ensures ExtractAirline(s) == "N/A" || (Trimmed(ExtractAirline(s)) && NoLineBreak(ExtractAirline(s)))
  {
    if MeaningfulLines(s) != [] {
      LastLineNoBreak(s);
    }
    AirlineOfLine(MeaningfulLines(s));
  }

  /** When the last line holds no break, neither does the airline. */
  lemma AirlineOfLine(lines: seq<string>)
    requires lines != [] ==> NoLineBreak(lines[|lines| - 1])
    ensures AirlineOfLines(lines) == "N/A"
            || (Trimmed(AirlineOfLines(lines)) && NoLineBreak(AirlineOfLines(lines)))
  {
    if lines != [] {
      NoBreakAfterRemoval(lines[|lines| - 1]);
    }
  }

  /** The last meaningful line holds no line break. */
  lemma LastLineNoBreak(s: string)
    requires MeaningfulLines(s) != []
    ensures NoLineBreak(MeaningfulLines(s)[|MeaningfulLines(s)| - 1])
  {
    LinesNoBreak(s);
    StrippedNoBreak(Lines(s));
  }

  lemma {:induction false} StrippedNoBreak(ls: seq<string>)
    requires forall i :: 0 <= i < |ls| ==> NoLineBreak(ls[i])
    ensures forall i :: 0 <= i < |StrippedNonBlank(ls)| ==> NoLineBreak(StrippedNonBlank(ls)[i])
  {
    if ls != [] {
      StrippedNoBreak(ls[..|ls| - 1]);
      StripNoBreak(ls[|ls| - 1]);
    }
  }

  lemma StripNoBreak(t: string)
    requires NoLineBreak(t)
    ensures NoLineBreak(Strip(t))
  {
    var a := LeadingSpaces(t);
    if a < |t| {
      var r := Strip(t);
      forall i | 0 <= i < |r| ensures !IsLineBreak(r[i]) { assert r[i] == t[a + i]; }
    }
  }

  lemma NoBreakAfterRemoval(t: string)
    requires NoLineBreak(t)
    ensures NoLineBreak(Strip(Sub(Literal("round trip", ""), t)))
  {
    var u := Sub(Literal("round trip", ""), t);
    forall i | 0 <= i < |u| ensures !IsLineBreak(u[i]) {
      if IsLineBreak(u[i]) {
        SubAbsent(Literal("round trip", ""), t, u[i]);
        assert false;
      }
    }
    StripNoBreak(u);
  }

  /** Blank text has no meaningful line. */
  lemma LinesOfBlank(s: string)
    ensures !HasNonSpace(s) ==> MeaningfulLines(s) == []
  {
    if !HasNonSpace(s) {
      BlankLines(s);
      StrippedOfBlank(Lines(s));
    }
  }

  lemma {:induction false} BlankLines(s: string)
    requires !HasNonSpace(s)
    ensures forall i :: 0 <= i < |Lines(s)| ==> !HasNonSpace(Lines(s)[i])
    decreases |s|
  {
    var k := FirstBreak(s);
    if k < |s| {
      assert !HasNonSpace(s[k + 1..]) by {
        var rest := s[k + 1..];
        forall j | 0 <= j < |rest| ensures IsSpace(rest[j]) {
          assert rest[j] == s[k + 1 + j];
        }
      }
      BlankLines(s[k + 1..]);
      assert !HasNonSpace(s[..k]) by {
        forall j | 0 <= j < k ensures IsSpace(s[..k][j]) { assert s[..k][j] == s[j]; }
      }
    }
  }

  lemma {:induction false} StrippedOfBlank(ls: seq<string>)
    requires forall i :: 0 <= i < |ls| ==> !HasNonSpace(ls[i])
    ensures StrippedNonBlank(ls) == []
  {
    if ls != [] {
      StrippedOfBlank(ls[..|ls| - 1]);
    }
  }

  /** Text before a line break does not matter once a non-blank line
      follows it: the airline comes from the last meaningful line. */
  lemma LastLineWins(p: string, b: char, q: string)
    requires IsLineBreak(b) && HasNonSpace(q)
    ensures ExtractAirline(p + [b] + q) == ExtractAirline(q)
  {
    LinesConcat(p, b, q);
    StrippedConcat(Lines(p), Lines(q));
    TextHasMeaningfulLine(q);
    var mp, mq := MeaningfulLines(p), MeaningfulLines(q);
    assert MeaningfulLines(p + [b] + q) == mp + mq;
    assert (mp + mq)[|mp + mq| - 1] == mq[|mq| - 1];
    SameLastLine(p + [b] + q, q);
  }

  /** The airline depends only on the last meaningful line. */
  lemma SameLastLine(s: string, t: string)
    requires MeaningfulLines(s) != [] && MeaningfulLines(t) != []
    requires MeaningfulLines(s)[|MeaningfulLines(s)| - 1] == MeaningfulLines(t)[|MeaningfulLines(t)| - 1]
    ensures ExtractAirline(s) == ExtractAirline(t)
  {
    SameLast(MeaningfulLines(s), MeaningfulLines(t));
  }

  lemma SameLast(a: seq<string>, b: seq<string>)
    requires a != [] && b != [] && a[|a| - 1] == b[|b| - 1]
    ensures AirlineOfLines(a) == AirlineOfLines(b)
  {
  }

  lemma {:induction false} LinesConcat(p: string, b: char, q: string)
    requires IsLineBreak(b)
    ensures Lines(p + [b] + q) == Lines(p) + Lines(q)
    decreases |p|
  {
    var k := FirstBreak(p);
    if k == |p| {
      LinesAtBreak(p, b, q);
    } else {
      LinesBeforeBreak(p, b, q, k);
      LinesUnfold(p, k);
      LinesConcat(p[k + 1..], b, q);
      ConsAssoc(Lines(p + [b] + q), Lines(p[k + 1..] + [b] + q), Lines(p), Lines(p[k + 1..]), Lines(q), p[..k]);
    }
  }

  /** `[h] + (c + d)` regrouped, on abstract lists of lines. */
  lemma ConsAssoc(whole: seq<string>, tail: seq<string>, left: seq<string>, mid: seq<string>, right: seq<string>, h: string)
    requires whole == [h] + tail && tail == mid + right && left == [h] + mid
    ensures whole == left + right
  {
  }

  /** A line that ends at the joining break. */
  lemma LinesAtBreak(p: string, b: char, q: string)
    requires IsLineBreak(b) && FirstBreak(p) == |p|
    ensures Lines(p + [b] + q) == [p] + Lines(q)
  {
    var x := p + [b] + q;
    assert x[|p|] == b;
    FirstBreakSpec(p);
    assert forall j :: 0 <= j < |p| ==> x[j] == p[j];
    FirstBreakIs(x, |p|);
    assert x[..|p|] == p && x[|p| + 1..] == q;
  }

  /** A line that ends at a break inside `p`. */
  lemma LinesBeforeBreak(p: string, b: char, q: string, k: nat)
    requires k == FirstBreak(p) && k < |p|
    ensures Lines(p + [b] + q) == [p[..k]] + Lines(p[k + 1..] + [b] + q)
  {
    var x := p + [b] + q;
    FirstBreakSpec(p);
    assert forall j :: 0 <= j <= k ==> x[j] == p[j];
    FirstBreakIs(x, k);
    LinesUnfold(x, k);
    assert x[..k] == p[..k];
    assert x[k + 1..] == p[k + 1..] + [b] + q;
  }

  /** One step of `splitlines`. */
  lemma LinesUnfold(s: string, k: nat)
    requires k == FirstBreak(s) && k < |s|
    ensures Lines(s) == [s[..k]] + Lines(s[k + 1..])
  {
  }

  lemma {:induction false} StrippedConcat(a: seq<string>, b: seq<string>)
    ensures StrippedNonBlank(a + b) == StrippedNonBlank(a) + StrippedNonBlank(b)
    decreases |b|
  {
    if b == [] {
      assert a + b == a;
    } else {
      assert (a + b)[..|a + b| - 1] == a + b[..|b| - 1];
      assert (a + b)[|a + b| - 1] == b[|b| - 1];
      StrippedConcat(a, b[..|b| - 1]);
    }
  }

  /** Text with a non-whitespace character has a meaningful line. */
  lemma TextHasMeaningfulLine(s: string)
    requires HasNonSpace(s)
    ensures MeaningfulLines(s) != []
  {
    var c :| 0 <= c < |s| && !IsSpace(s[c]);
    var i := NonBlankLine(s, c);
    NonBlankKept(Lines(s), i);
  }

  lemma {:induction false} NonBlankLine(s: string, c: nat) returns (i: nat)
    requires c < |s| && !IsSpace(s[c])
    ensures i < |Lines(s)| && HasNonSpace(Lines(s)[i])
    decreases |s|
  {
    var k := FirstBreak(s);
    FirstBreakSpec(s);
    if k == |s| {
      assert Lines(s)[0] == s;
      i := 0;
    } else if c < k {
      assert Lines(s)[0] == s[..k];
      assert s[..k][c] == s[c];
      i := 0;
    } else {
      var rest := s[k + 1..];
      LineBreakIsSpace(s[k]);
      assert rest[c - k - 1] == s[c];
      var j := NonBlankLine(rest, c - k - 1);
      assert Lines(s)[j + 1] == Lines(rest)[j];
      i := j + 1;
    }
  }

  lemma {:induction false} NonBlankKept(ls: seq<string>, i: nat)
    requires i < |ls| && HasNonSpace(ls[i])
    ensures StrippedNonBlank(ls) != []
  {
    if i == |ls| - 1 {
      StripEmpty(ls[i]);
    } else {
      assert ls[..|ls| - 1][i] == ls[i];
      NonBlankKept(ls[..|ls| - 1], i);
    }
  }

  /** A single non-blank line is the only meaningful line, and its airline
      is that line with "round trip" removed and stripped, or "N/A" when
      nothing is left. */
  lemma OneLineAirline(q: string)
    requires NoLineBreak(q) && HasNonSpace(q)
    ensures MeaningfulLines(q) == [Strip(q)]
    ensures var cand := Strip(Sub(Literal("round trip", ""), Strip(q)));
            ExtractAirline(q) == if cand == [] then "N/A" else cand
  {
    FirstBreakIs(q, |q|);
    assert Lines(q) == [q];
    StripEmpty(q);
    assert [q][..0] == [];
  }

  /** Text with no "round trip" in it is not changed by its removal. */
  lemma NoRoundTrip(t: string)
    requires |t| < |"round trip"|
    ensures Sub(Literal("round trip", ""), t) == t
  {
    SubWithoutMatch(Literal("round trip", ""), t);
  }

  const AirlineSample := "8:00 AM\n10:30 AM\nround trip\nDelta"

  lemma AirlineExample()
    ensures ExtractAirline(AirlineSample) == "Delta"
  {
    var q := "Delta";
    assert AirlineSample == "8:00 AM\n10:30 AM\nround trip" + ['\n'] + q;
    assert !IsSpace(q[0]);
    LastLineWins("8:00 AM\n10:30 AM\nround trip", '\n', q);
    SingleLineAirline();
  }

  lemma SingleLineAirline()
    ensures ExtractAirline("Delta") == "Delta"
  {
    var q := "Delta";
    assert forall i :: 0 <= i < |q| ==> !IsSpace(q[i]);
    OneWordAirline(q);
  }

  /** A single word shorter than "round trip" is its own airline. */
  lemma OneWordAirline(q: string)
    requires q != [] && |q| < |"round trip"|
    requires forall i :: 0 <= i < |q| ==> !IsSpace(q[i])
    ensures ExtractAirline(q) == q
  {
    SingleLine(q);
    TrimmedStrip(q);
    OneStrippedLine(q);
    NoRoundTrip(q);
  }

  /** Text without whitespace is one line. */
  lemma SingleLine(q: string)
    requires forall i :: 0 <= i < |q| ==> !IsSpace(q[i])
    ensures Lines(q) == [q]
  {
    forall i | 0 <= i < |q| ensures !IsLineBreak(q[i]) {
      LineBreakIsSpace(q[i]);
    }
    FirstBreakIs(q, |q|);
  }

  lemma OneStrippedLine(q: string)
    requires q != [] && Strip(q) == q
    ensures StrippedNonBlank([q]) == [q]
  {
    assert [q][..0] == [];
  }

  // ---------------------------------------------------------------------
  // duration and stops fields of the record builder

  /** `re.sub(r"[A-Z]{3}–[A-Z]{3}", "", first_line(raw)).strip()` */
  function CleanDuration(raw: string): (r: string)
    requires FirstLineDefined(raw)
    ensures Trimmed(r)
  {
    Strip(Sub(AirportPair, FirstLine(raw)))
  }

  /** The cleaned duration is a single stripped line, and it is the first
      line itself when that line names no airport pair. */
  lemma CleanDurationShape(raw: string)
    requires FirstLineDefined(raw)
    ensures Trimmed(CleanDuration(raw)) && NoLineBreak(CleanDuration(raw))
    ensures (forall j :: 0 <= j < |FirstLine(raw)| ==> FirstLine(raw)[j] != EnDash)
            ==> CleanDuration(raw) == FirstLine(raw)
  {
    var line := FirstLine(raw);
    if raw != [] {
      var _, _ := FirstLineShape(raw);
    }
    assert NoLineBreak(line);
    var u := Sub(AirportPair, line);
    forall i | 0 <= i < |u| ensures !IsLineBreak(u[i]) {
      if IsLineBreak(u[i]) {
        SubAbsent(AirportPair, line, u[i]);
        assert false;
      }
    }
    StripNoBreak(u);
    if forall j :: 0 <= j < |line| ==> line[j] != EnDash {
      forall j | 0 <= j < |line| ensures MatchAt(AirportPair, line, j).None? {
        if j + 3 < |line| { assert line[j + 3] != EnDash; }
      }
      SubWithoutMatch(AirportPair, line);
      assert u == line;
      TrimmedStrip(line);
    }
  }

  /** `first_line` of the stops text. */
  function CleanStops(raw: string): (r: string)
    requires FirstLineDefined(raw)
    ensures Trimmed(r) && NoLineBreak(r)
  {
    FirstLineIsLine(raw);
    FirstLine(raw)
  }

  /** `first_line` gives one stripped line. */
  lemma FirstLineIsLine(raw: string)
    requires FirstLineDefined(raw)
    ensures Trimmed(FirstLine(raw)) && NoLineBreak(FirstLine(raw))
  {
    if raw != [] {
      var _, _ := FirstLineShape(raw);
    }
  }

  const PriceSample := "Round trip$341 Delta"

  lemma PriceExample()
    ensures ExtractPrice(PriceSample) == ("$341", Some(341))
  {
    SampleFirstPrice();
    SampleDisplay();
    DigitsExample();
    ValueExample();
  }

  lemma ValueExample()
    ensures DecimalValue("341") == 341
  {
    assert DecimalValue("341") == 10 * DecimalValue("34") + 1 by {
      assert "341"[..2] == "34";
    }
    assert DecimalValue("34") == 10 * DecimalValue("3") + 4 by {
      assert "34"[..1] == "3";
    }
    assert DecimalValue("3") == 3 by {
      assert "3"[..0] == "";
    }
  }

  lemma SampleFirstPrice()
    ensures FirstPrice(PriceSample, 0) == Some(10)
  {
    var s := PriceSample;
    assert PriceAt(s, 10);
    assert forall j :: 0 <= j < 10 ==> !PriceAt(s, j);
  }

  lemma SampleDisplay()
    ensures PriceAt(PriceSample, 10) && Display(PriceSample, 10) == "$341"
  {
    var s := PriceSample;
    assert s[11] == '3' && s[12] == '4' && s[13] == '1' && s[14] == ' ';
    assert PriceEnd(s, 10) == 14;
    var m := s[10..14];
    assert m == "$341";
    forall j | 0 <= j < |m| ensures MatchAt(Literal(" ", ""), m, j).None? {
      assert m[j..j + 1] == [m[j]];
    }
    SubWithoutMatch(Literal(" ", ""), m);
  }

  lemma DigitsExample()
    ensures Digits("$341") == "341"
  {
    assert "$341"[1..] == "341";
    assert "341"[1..] == "41";
    assert "41"[1..] == "1";
    assert "1"[1..] == "";
  }

  lemma NoPriceExample()
    ensures ExtractPrice("no price here") == ("", None)
  {
    var s := "no price here";
    assert forall j :: 0 <= j < |s| ==> !PriceAt(s, j);
  }
}
