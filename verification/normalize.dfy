/** `normalize_spacing`: the spacing repair applied to every cleaned text
    field, a fixed chain of ten substitutions followed by `strip`. */
module Normalize {
  import opened Text
  import opened Subst

  /** The three AM/PM substitutions, in source order. */
  const AmPmRules: seq<Rule> := [GluedAmPm, SpacedAmPm, AmPmLetter]

  /** The four letter-case substitutions after them. */
  const CaseRules: seq<Rule> := [LowerUpper, DigitUpper, CodeUpper, LowerCode]

  /** The three plain replacements at the end of the chain. */
  const LiteralRules: seq<Rule> :=
    [Literal("Airport ", "Airport, "), Literal("min", " min"), Literal("  ", " ")]

  const SpacingRules: seq<Rule> := AmPmRules + CaseRules + LiteralRules

  /** `normalize_spacing(text)`. */
  function NormalizeSpacing(text: string): (r: string)
    ensures Trimmed(r)
    ensures |text| == 0 ==> r == []
  {
    if text == [] then [] else Strip(SubAll(SpacingRules, text))
  }

  lemma {:induction false} SubAllConcat(a: seq<Rule>, b: seq<Rule>, s: string)
    ensures SubAll(a + b, s) == SubAll(b, SubAll(a, s))
  {
    if a != [] {
      assert (a + b)[0] == a[0];
      assert (a + b)[1..] == a[1..] + b;
      SubAllConcat(a[1..], b, Sub(a[0], s));
    } else {
      assert a + b == b;
    }
  }

  /** Each substitution of the chain replaces text by text with the same
      characters once whitespace and commas are set aside. */
  lemma SpacingRulesKeepCore()
    ensures forall k :: 0 <= k < |SpacingRules| ==> KeepsCore(SpacingRules[k])
  {
    LiteralRulesKeepCore();
    forall k | 0 <= k < |SpacingRules| ensures KeepsCore(SpacingRules[k]) {
      if k >= 7 {
        assert SpacingRules[k] == LiteralRules[k - 7];
      }
    }
  }

  lemma LiteralRulesKeepCore()
    ensures forall k :: 0 <= k < |LiteralRules| ==> KeepsCore(LiteralRules[k])
  {
    AirportKeepsCore();
    MinKeepsCore();
    SpacesKeepCore();
  }

  lemma SpacesKeepCore()
    ensures Core("  ") == Core(" ")
  {
    assert Core("  ") == [] == Core(" ");
  }

  lemma AirportKeepsCore()
    ensures Core("Airport ") == Core("Airport, ")
  {
    assert Core(" ") == [] && Core(", ") == [];
    CoreConcat("Airport", " ");
    CoreConcat("Airport", ", ");
    assert "Airport" + " " == "Airport ";
    assert "Airport" + ", " == "Airport, ";
  }

  lemma MinKeepsCore()
    ensures Core("min") == Core(" min")
  {
    CoreConcat(" ", "min");
    assert " " + "min" == " min";
  }

  /** The repair only moves whitespace and commas: every other character of
      the text survives, in order, and no other character is added. */
  lemma NormalizeKeepsCore(text: string)
    ensures Core(NormalizeSpacing(text)) == Core(text)
  {
    if text != [] {
      SpacingRulesKeepCore();
      SubAllCore(SpacingRules, text);
      CoreStrip(SubAll(SpacingRules, text));
    }
  }

  /** The only characters the chain may write without reading them are the
      space and the comma. */
  lemma SpacingRulesInsert(c: char)
    requires c != ' ' && c != ','
    ensures forall k :: 0 <= k < |SpacingRules| ==> c !in Inserted(SpacingRules[k])
  {
    assert c in "Airport, " ==> c in "Airport ";
    assert c in " min" ==> c in "min";
  }

  /** The only characters the repair can introduce are the space and the
      comma. */
  lemma NormalizeIntroducesOnly(text: string, c: char)
    requires c != ' ' && c != ',' && c !in text
    ensures c !in NormalizeSpacing(text)
  {
    if text != [] {
      var u := SubAll(SpacingRules, text);
      SpacingRulesInsert(c);
      SubAllAbsent(SpacingRules, text, c);
    }
  }

  /** The rules after `DigitUpper`. */
  const TailRules: seq<Rule> := [CodeUpper, LowerCode] + LiteralRules

  /** The chain, cut after its `LowerUpper` and `DigitUpper` steps. */
  lemma SpacingChain(text: string)
    ensures SubAll(SpacingRules, text)
            == SubAll(TailRules, Sub(DigitUpper, Sub(LowerUpper, SubAll(AmPmRules, text))))
  {
    assert SpacingRules == AmPmRules + ([LowerUpper] + ([DigitUpper] + TailRules));
    SubAllConcat(AmPmRules, [LowerUpper] + ([DigitUpper] + TailRules), text);
    var t0 := SubAll(AmPmRules, text);
    SubAllConcat([LowerUpper], [DigitUpper] + TailRules, t0);
    assert SubAll([LowerUpper], t0) == Sub(LowerUpper, t0);
    var t1 := Sub(LowerUpper, t0);
    SubAllConcat([DigitUpper], TailRules, t1);
    assert SubAll([DigitUpper], t1) == Sub(DigitUpper, t1);
  }

  lemma TailRulesKeepEdges()
    ensures forall k :: 0 <= k < |TailRules| ==> KeepsEdges(TailRules[k])
  {
    AirportKeepsEdges();
    MinKeepsEdges();
    assert LiteralKeepsEdges("  ", " ");
  }

  lemma AirportKeepsEdges()
    ensures LiteralKeepsEdges("Airport ", "Airport, ")
  {
    var r := "Airport, ";
    forall j | 0 < j < |r| ensures !Glued(LowersAndDigits, r[j - 1], r[j]) {
      assert !IsUpper(r[j]);
    }
  }

  lemma MinKeepsEdges()
    ensures LiteralKeepsEdges("min", " min")
  {
    var r := " min";
    forall j | 0 < j < |r| ensures !Glued(LowersAndDigits, r[j - 1], r[j]) {
      assert !IsUpper(r[j]);
    }
  }

  /** After the repair no lower-case letter and no digit stands directly
      before an upper-case letter: words and numbers glued to a following
      capitalised word are always split apart. */
  lemma NormalizeSeparates(text: string)
    ensures NoGlue(LowersAndDigits, NormalizeSpacing(text))
  {
    if text != [] {
      SpacingChain(text);
      var t0 := SubAll(AmPmRules, text);
      SubLowerUpper(t0);
      var t1 := Sub(LowerUpper, t0);
      SubDigitUpper(t1);
      TailRulesKeepEdges();
      SubAllKeepsNoGlue(TailRules, LowersAndDigits, Sub(DigitUpper, t1));
      var u := SubAll(SpacingRules, text);
      if LeadingSpaces(u) < |u| {
        NoGlueSlice(LowersAndDigits, u, LeadingSpaces(u), TrailingEnd(u));
      }
    }
  }

  // ---------------------------------------------------------------------
  // The repair is not idempotent: a second pass can split a run of
  // capitals that the first pass left glued.

  /** Upper-case letters and single spaces, with no "AM" or "PM". */
  predicate PlainCaps(s: string)
  {
    && (forall i :: 0 <= i < |s| ==> IsUpper(s[i]) || s[i] == ' ')
    && (forall i :: 0 <= i < |s| ==> !AmPmAt(s, i))
    && (forall i :: 0 < i < |s| ==> s[i - 1] != ' ' || s[i] != ' ')
  }

  /** On such text every substitution except `CodeUpper` finds nothing. */
  lemma QuietRule(rule: Rule, s: string)
    requires PlainCaps(s) && rule in SpacingRules && rule != CodeUpper
    ensures Sub(rule, s) == s
  {
    forall j | 0 <= j < |s| ensures MatchAt(rule, s, j).None? {
      assert IsUpper(s[j]) || s[j] == ' ';
      assert !AmPmAt(s, j);
      if j > 0 {
        assert IsUpper(s[j - 1]) || s[j - 1] == ' ';
      }
      if j + 1 < |s| {
        assert IsUpper(s[j + 1]) || s[j + 1] == ' ';
        assert s[j] != ' ' || s[j + 1] != ' ';
      }
      match rule
      case Literal(p, r) =>
        if j + |p| <= |s| {
          var seg := s[j..j + |p|];
          if rule == Literal("Airport ", "Airport, ") {
            assert seg[1] == s[j + 1];
          } else if rule == Literal("min", " min") {
            assert seg[0] == s[j];
          } else {
            assert seg[0] == s[j] && seg[1] == s[j + 1];
          }
        }
      case _ =>
    }
    SubWithoutMatch(rule, s);
  }

  lemma {:induction false} QuietRules(rules: seq<Rule>, s: string)
    requires PlainCaps(s)
    requires forall k :: 0 <= k < |rules| ==> rules[k] in SpacingRules && rules[k] != CodeUpper
    ensures SubAll(rules, s) == s
  {
    if rules != [] {
      QuietRule(rules[0], s);
      QuietRules(rules[1..], s);
    }
  }

  /** Normalising text of this shape is `CodeUpper` followed by `strip`. */
  lemma PlainCapsNormalize(s: string, t: string)
    requires PlainCaps(s) && s != [] && t == Sub(CodeUpper, s) && PlainCaps(t) && Trimmed(t)
    ensures NormalizeSpacing(s) == t
  {
    SpacingChain(s);
    QuietCandidates();
    QuietRules(AmPmRules, s);
    QuietRule(LowerUpper, s);
    QuietRule(DigitUpper, s);
    assert TailRules[1..] == AfterCode;
    QuietRules(AfterCode, t);
    TrimmedStrip(t);
  }

  /** The rules after `CodeUpper`. */
  const AfterCode: seq<Rule> := [LowerCode] + LiteralRules

  lemma QuietCandidates()
    ensures forall k :: 0 <= k < |AmPmRules| ==> AmPmRules[k] in SpacingRules && AmPmRules[k] != CodeUpper
    ensures forall k :: 0 <= k < |AfterCode| ==> AfterCode[k] in SpacingRules && AfterCode[k] != CodeUpper
    ensures LowerUpper in SpacingRules && DigitUpper in SpacingRules
  {
    assert SpacingRules == AmPmRules + [LowerUpper, DigitUpper, CodeUpper] + AfterCode;
  }

  const Capitals := "ABCDEFGH"
  const OnceSpaced := "ABC DEFG H"
  const TwiceSpaced := "ABC DEF G H"

  lemma CodeUpperHit(s: string, i: nat)
    requires CodeAt(s, i) && i + 3 < |s| && IsUpper(s[i + 3])
    ensures Scan(StepOf(CodeUpper), s, i)
            == s[i..i + 3] + [' ', s[i + 3]] + Scan(StepOf(CodeUpper), s, i + 4)
  {
  }

  /** `CodeUpper` copies text in which no run of four capitals starts. */
  lemma CodeUpperCopies(s: string, i: nat, j: nat)
    requires i <= j <= |s|
    requires forall k :: i <= k < j ==> !(CodeAt(s, k) && k + 3 < |s| && IsUpper(s[k + 3]))
    ensures Scan(StepOf(CodeUpper), s, i) == s[i..j] + Scan(StepOf(CodeUpper), s, j)
  {
    forall k | i <= k < j ensures CopiesAt(StepOf(CodeUpper), s, k) {
    }
    ScanCopies(StepOf(CodeUpper), s, i, j);
  }

  lemma FirstPass(s: string)
    requires s == Capitals
    ensures Sub(CodeUpper, s) == OnceSpaced
  {
    SplitsTwice(s);
    FirstPassPieces(s);
  }

  lemma FirstPassPieces(s: string)
    requires s == Capitals
    ensures s[0..3] + [' ', s[3]] + (s[4..7] + [' ', s[7]] + []) == OnceSpaced
  {
  }

  /** `CodeUpper` on eight capitals splits both runs of four. */
  lemma SplitsTwice(s: string)
    requires |s| == 8 && CodeAt(s, 0) && IsUpper(s[3]) && CodeAt(s, 4) && IsUpper(s[7])
    ensures Sub(CodeUpper, s) == s[0..3] + [' ', s[3]] + (s[4..7] + [' ', s[7]] + [])
  {
    CodeUpperHit(s, 0);
    CodeUpperHit(s, 4);
    assert Scan(StepOf(CodeUpper), s, 8) == [];
  }

  lemma SecondPass(s: string)
    requires s == OnceSpaced
    ensures Sub(CodeUpper, s) == TwiceSpaced
  {
    SplitsOnce(s);
    SecondPassPieces(s);
  }

  lemma SecondPassPieces(s: string)
    requires s == OnceSpaced
    ensures s[0..4] + (s[4..7] + [' ', s[7]] + (s[8..10] + [])) == TwiceSpaced
  {
  }

  /** `CodeUpper` on a ten-character text whose only run of four capitals
      starts at index 4. */
  lemma SplitsOnce(s: string)
    requires |s| == 10 && s[3] == ' ' && s[8] == ' ' && CodeAt(s, 4) && IsUpper(s[7])
    ensures Sub(CodeUpper, s) == s[0..4] + (s[4..7] + [' ', s[7]] + (s[8..10] + []))
  {
    CodeUpperCopies(s, 0, 4);
    CodeUpperHit(s, 4);
    CodeUpperCopies(s, 8, 10);
  }

  lemma SamplesPlain()
    ensures PlainCaps(Capitals) && PlainCaps(OnceSpaced) && PlainCaps(TwiceSpaced)
    ensures Trimmed(OnceSpaced) && Trimmed(TwiceSpaced)
  {
  }

  /** Applying the repair twice differs from applying it once. */
  lemma NotIdempotent()
    ensures NormalizeSpacing(Capitals) == OnceSpaced
    ensures NormalizeSpacing(OnceSpaced) == TwiceSpaced
    ensures NormalizeSpacing(NormalizeSpacing(Capitals)) != NormalizeSpacing(Capitals)
  {
    FirstPass(Capitals);
    SecondPass(OnceSpaced);
    SamplesPlain();
    PlainCapsNormalize(Capitals, OnceSpaced);
    PlainCapsNormalize(OnceSpaced, TwiceSpaced);
    assert |OnceSpaced| != |TwiceSpaced|;
  }

  // ---------------------------------------------------------------------
  // A minutes field: "5h30min" becomes "5h30 min".

  /** The rules that need an upper-case letter to match. */
  predicate NeedsCapital(rule: Rule)
  {
    rule in AmPmRules || rule in CaseRules || rule == Literal("Airport ", "Airport, ")
  }

  /** On text without upper-case letters those rules find nothing. */
  lemma LowerQuiet(rule: Rule, s: string)
    requires NeedsCapital(rule) && forall i :: 0 <= i < |s| ==> !IsUpper(s[i])
    ensures Sub(rule, s) == s
  {
    forall j | 0 <= j < |s| ensures MatchAt(rule, s, j).None? {
      if rule == Literal("Airport ", "Airport, ") {
        if j + 8 <= |s| {
          assert s[j..j + 8][0] == s[j];
        }
      } else if rule == SpacedAmPm {
        SpaceRunBlank(s, j);
      }
    }
    SubWithoutMatch(rule, s);
  }

  lemma {:induction false} LowerQuietAll(rules: seq<Rule>, s: string)
    requires forall k :: 0 <= k < |rules| ==> NeedsCapital(rules[k])
    requires forall i :: 0 <= i < |s| ==> !IsUpper(s[i])
    ensures SubAll(rules, s) == s
  {
    if rules != [] {
      LowerQuiet(rules[0], s);
      LowerQuietAll(rules[1..], s);
    }
  }

  /** The rules before the "min" replacement. */
  const BeforeMin: seq<Rule> := AmPmRules + CaseRules + [Literal("Airport ", "Airport, ")]

  lemma MinChain(text: string)
    ensures SubAll(SpacingRules, text)
            == Sub(Literal("  ", " "), Sub(Literal("min", " min"), SubAll(BeforeMin, text)))
  {
    assert SpacingRules == BeforeMin + [Literal("min", " min"), Literal("  ", " ")];
    SubAllConcat(BeforeMin, [Literal("min", " min"), Literal("  ", " ")], text);
    var u := Sub(Literal("min", " min"), SubAll(BeforeMin, text));
    assert [Literal("min", " min"), Literal("  ", " ")][1..] == [Literal("  ", " ")];
    assert SubAll([Literal("  ", " ")], u) == SubAll([], Sub(Literal("  ", " "), u));
  }

  lemma BeforeMinNeedCapitals()
    ensures forall k :: 0 <= k < |BeforeMin| ==> NeedsCapital(BeforeMin[k])
  {
  }

  /** `replace("min", " min")` puts a space before every "min" and leaves
      the text around it as that text alone would become. */
  lemma MinSplit(p: string, q: string)
    ensures Sub(Literal("min", " min"), p + "min" + q)
            == Sub(Literal("min", " min"), p) + " min" + Sub(Literal("min", " min"), q)
  {
    var st, x := StepOf(Literal("min", " min")), p + "min" + q;
    MinPrefix(p, x, 0);
    MinHit(p, q);
    ScanStep(st, x, |p|);
    MinRest(p, q);
    MinJoin(Scan(st, x, 0), Scan(st, p, 0), Scan(st, x, |p|), Scan(st, x, |p| + 3), Sub(Literal("min", " min"), q));
  }

  /** The scan of `p + "min" + q` matches "min" at the end of `p`. */
  lemma MinHit(p: string, q: string)
    ensures StepOf(Literal("min", " min"))(p + "min" + q, |p|) == Hit(3, " min")
  {
    var x := p + "min" + q;
    assert x[|p|..|p| + 3] == "min";
  }

  /** After the match the scan goes on as the scan of `q`. */
  lemma MinRest(p: string, q: string)
    ensures Scan(StepOf(Literal("min", " min")), p + "min" + q, |p| + 3) == Sub(Literal("min", " min"), q)
  {
    var x := p + "min" + q;
    LiteralSuffix("min", " min", x, |p| + 3, 0);
    assert x[|p| + 3..] == q;
  }

  lemma MinJoin(whole: string, left: string, mid: string, rest: string, right: string)
    requires whole == left + mid && mid == " min" + rest && rest == right
    ensures whole == left + " min" + right
  {
  }

  /** No match of "min" in `p + "min"` crosses the end of `p`: "min" does
      not overlap itself. */
  lemma MinPrefix(p: string, x: string, i: nat)
    requires |p| + 3 <= |x| && x[..|p| + 3] == p + "min" && i <= |p|
    ensures Scan(StepOf(Literal("min", " min")), x, i)
            == Scan(StepOf(Literal("min", " min")), p, i) + Scan(StepOf(Literal("min", " min")), x, |p|)
  {
    var st := StepOf(Literal("min", " min"));
    forall d | 0 <= d < |p| ensures st(x, d) == st(p, d) {
      MinStepAgrees(p, x, d);
    }
    ScanPrefix(st, x, p, i);
  }

  lemma MinStepAgrees(p: string, x: string, d: nat)
    requires |p| + 3 <= |x| && x[..|p| + 3] == p + "min" && d < |p|
    ensures StepOf(Literal("min", " min"))(x, d) == StepOf(Literal("min", " min"))(p, d)
  {
    assert x[d] == x[..|p| + 3][d] == p[d];
    if d + 3 <= |p| {
      assert x[d..d + 3] == x[..|p| + 3][d..d + 3] == p[d..d + 3];
    } else {
      assert x[d..d + 3][|p| - d] == x[..|p| + 3][|p|] == 'm';
    }
  }

  /** Text without an "m" is left alone by the "min" replacement. */
  lemma NoMinutes(p: string)
    requires forall k :: 0 <= k < |p| ==> p[k] != 'm'
    ensures Sub(Literal("min", " min"), p) == p
  {
    forall j | 0 <= j < |p| ensures MatchAt(Literal("min", " min"), p, j).None? {
      if j + 3 <= |p| {
        assert p[j..j + 3][0] == p[j];
      }
    }
    SubWithoutMatch(Literal("min", " min"), p);
  }

  /** Text with no two spaces in a row is left alone by the last rule. */
  lemma SingleSpaces(s: string)
    requires forall k :: 0 < k < |s| ==> s[k - 1] != ' ' || s[k] != ' '
    ensures Sub(Literal("  ", " "), s) == s
  {
    forall j | 0 <= j < |s| ensures MatchAt(Literal("  ", " "), s, j).None? {
      if j + 2 <= |s| {
        assert s[j..j + 2][0] == s[j] && s[j..j + 2][1] == s[j + 1];
      }
    }
    SubWithoutMatch(Literal("  ", " "), s);
  }

  lemma MinutesExample()
    ensures NormalizeSpacing("5h30min") == "5h30 min"
  {
    MinutesPieces("5h30min", "5h30 min");
  }

  lemma MinutesPieces(s: string, t: string)
    requires s == "5h30min" && t == "5h30 min"
    ensures NormalizeSpacing(s) == t
  {
    MinutesShape(s, t);
    MinChain(s);
    BeforeMinNeedCapitals();
    LowerQuietAll(BeforeMin, s);
    var p := s[..4];
    MinSplit(p, []);
    NoMinutes(p);
    assert Sub(Literal("min", " min"), []) == [];
    assert p + " min" + [] == t;
    assert Sub(Literal("min", " min"), s) == t;
    SingleSpaces(t);
    TrimmedStrip(t);
  }

  lemma MinutesShape(s: string, t: string)
    requires s == "5h30min" && t == "5h30 min"
    ensures s != [] && forall i :: 0 <= i < |s| ==> !IsUpper(s[i])
    ensures s == s[..4] + "min" + [] && forall k :: 0 <= k < |s[..4]| ==> s[..4][k] != 'm'
    ensures s[..4] + " min" == t && Trimmed(t)
    ensures forall k :: 0 < k < |t| ==> t[k - 1] != ' ' || t[k] != ' '
  {
  }
}
