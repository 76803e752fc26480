/** Left-to-right, non-overlapping substitution, the semantics shared by
    Python's `str.replace(old, new)` and by `re.sub(pattern, repl, text)` for
    the fixed patterns of the pipeline.  The scanner tries the pattern at the
    current position; on a match it emits the replacement and resumes after
    the matched text, otherwise it copies one character.  Look-behind and
    look-ahead assertions read the original text, as `re.sub` does. */
module Subst {
  import opened Text

  /** The patterns the pipeline substitutes. */
  datatype Rule =
    | Literal(pat: string, rep: string)  // str.replace(pat, rep)
    | AirportPair   // [A-Z]{3}–[A-Z]{3}           -> ""
    | GluedAmPm     // (?<=\d)(AM|PM)(?=\S)         -> " \1 "
    | SpacedAmPm    // (?<=\d)\s*(AM|PM)            -> " \1"
    | AmPmLetter    // (AM|PM)(?=[A-Za-z])          -> "\1 "
    | LowerUpper    // ([a-z])([A-Z])               -> "\1 \2"
    | DigitUpper    // (\d)([A-Z])                  -> "\1 \2"
    | CodeUpper     // ([A-Z]{3})([A-Z])            -> "\1 \2"
    | LowerCode     // ([a-z])([A-Z]{3})            -> "\1 \2"

  /** A match: how many characters it consumes and what replaces them. */
  datatype Hit = Hit(len: nat, out: string)

  const EnDash: char := '\U{2013}'

  /** "AM" or "PM" starts at `i`. */
  predicate AmPmAt(s: string, i: nat)
  {
    i + 2 <= |s| && (s[i] == 'A' || s[i] == 'P') && s[i + 1] == 'M'
  }

  /** Three upper-case letters start at `i`. */
  predicate CodeAt(s: string, i: nat)
  {
    i + 3 <= |s| && IsUpper(s[i]) && IsUpper(s[i + 1]) && IsUpper(s[i + 2])
  }

  /** Length of the (greedy) run of whitespace starting at `i`. */
  function SpaceRun(s: string, i: nat): (w: nat)
    requires i <= |s|
    ensures i + w <= |s|
    decreases |s| - i
  {
    if i < |s| && IsSpace(s[i]) then 1 + SpaceRun(s, i + 1) else 0
  }

  lemma {:induction false} SpaceRunBlank(s: string, i: nat)
    requires i <= |s|
    ensures forall k :: i <= k < i + SpaceRun(s, i) ==> IsSpace(s[k])
    ensures i + SpaceRun(s, i) < |s| ==> !IsSpace(s[i + SpaceRun(s, i)])
    decreases |s| - i
  {
    if i < |s| && IsSpace(s[i]) {
      SpaceRunBlank(s, i + 1);
    }
  }

  /** The match of `rule` that starts at position `i`, if any. */
  function MatchAt(rule: Rule, s: string, i: nat): (h: Option<Hit>)
    requires i < |s|
    ensures h.Some? ==> 1 <= h.value.len <= |s| - i
  {
    match rule
    case Literal(p, r) =>
      if p != [] && i + |p| <= |s| && s[i..i + |p|] == p then Some(Hit(|p|, r)) else None
    case AirportPair =>
      if CodeAt(s, i) && i + 7 <= |s| && s[i + 3] == EnDash && CodeAt(s, i + 4)
      then Some(Hit(7, "")) else None
    case GluedAmPm =>
      if i > 0 && IsDigit(s[i - 1]) && AmPmAt(s, i) && i + 2 < |s| && !IsSpace(s[i + 2])
      then Some(Hit(2, " " + s[i..i + 2] + " ")) else None
    case SpacedAmPm =>
      if i > 0 && IsDigit(s[i - 1]) && AmPmAt(s, i + SpaceRun(s, i))
      then
        var w := SpaceRun(s, i);
        Some(Hit(w + 2, " " + s[i + w..i + w + 2]))
      else None
    case AmPmLetter =>
      if AmPmAt(s, i) && i + 2 < |s| && IsLetter(s[i + 2])
      then Some(Hit(2, s[i..i + 2] + " ")) else None
    case LowerUpper =>
      if i + 1 < |s| && IsLower(s[i]) && IsUpper(s[i + 1])
      then Some(Hit(2, [s[i], ' ', s[i + 1]])) else None
    case DigitUpper =>
      if i + 1 < |s| && IsDigit(s[i]) && IsUpper(s[i + 1])
      then Some(Hit(2, [s[i], ' ', s[i + 1]])) else None
    case CodeUpper =>
      if CodeAt(s, i) && i + 3 < |s| && IsUpper(s[i + 3])
      then Some(Hit(4, s[i..i + 3] + [' ', s[i + 3]])) else None
    case LowerCode =>
      if IsLower(s[i]) && CodeAt(s, i + 1)
      then Some(Hit(4, [s[i], ' '] + s[i + 1..i + 4])) else None
  }

  /** One step of the scan at `i`: the match there, or the character copied. */
  function Step(rule: Rule, s: string, i: nat): (h: Hit)
    requires i < |s|
    ensures 1 <= h.len <= |s| - i
  {
    match MatchAt(rule, s, i)
    case Some(h) => h
    case None => Hit(1, [s[i]])
  }

  // ---------------------------------------------------------------------
  // The scanner, for any step function.  The lemmas about it take the
  // properties of single steps as hypotheses, so that they are proved once
  // for every pattern.

  /** What the scan does at position `i` of `s`. */
  type Stepper = (string, nat) -> Hit

  /** Every step consumes at least one character and no more than remain. */
  ghost predicate Advances(st: Stepper)
  {
    forall s: string, i: nat :: i < |s| ==> 1 <= st(s, i).len <= |s| - i
  }

  /** The substituted text of `s[i..]`. */
  function Scan(st: Stepper, s: string, i: nat): string
    requires i <= |s| && Advances(st)
    decreases |s| - i
  {
    if i == |s| then []
    else
      var h := st(s, i);
      h.out + Scan(st, s, i + h.len)
  }

  /** The step function of a pattern. */
  function StepOf(rule: Rule): (st: Stepper)
    ensures Advances(st)
    ensures forall s: string, i: nat :: i < |s| ==> st(s, i) == Step(rule, s, i)
  {
    (s: string, i: nat) => if i < |s| then Step(rule, s, i) else Hit(1, [])
  }

  /** `re.sub(pattern, repl, s)` / `s.replace(pat, rep)`. */
  function Sub(rule: Rule, s: string): string
  {
    Scan(StepOf(rule), s, 0)
  }

  /** The rules applied one after another, first rule first. */
  function SubAll(rules: seq<Rule>, s: string): string
  {
    if rules == [] then s else SubAll(rules[1..], Sub(rules[0], s))
  }

  function Last(t: string): char
    requires t != []
  {
    t[|t| - 1]
  }

  /** The step at `k` copies one character. */
  predicate CopiesAt(st: Stepper, s: string, k: nat)
    requires k < |s|
  {
    st(s, k) == Hit(1, [s[k]])
  }

  /** Steps that copy one character each copy the text they cross. */
  lemma {:induction false} ScanCopies(st: Stepper, s: string, i: nat, j: nat)
    requires i <= j <= |s| && Advances(st)
    requires forall k :: i <= k < j ==> CopiesAt(st, s, k)
    ensures Scan(st, s, i) == s[i..j] + Scan(st, s, j)
    decreases j - i
  {
    if i < j {
      assert CopiesAt(st, s, i);
      ScanCopies(st, s, i + 1, j);
      var rest := Scan(st, s, j);
      calc {
        Scan(st, s, i);
        [s[i]] + Scan(st, s, i + 1);
        [s[i]] + (s[i + 1..j] + rest);
        ([s[i]] + s[i + 1..j]) + rest;
        { assert [s[i]] + s[i + 1..j] == s[i..j]; }
        s[i..j] + rest;
      }
    }
  }

  /** The step at `j` writes text with the `Core` of what it consumes. */
  predicate KeepsCoreAt(st: Stepper, s: string, j: nat)
    requires j < |s| && Advances(st)
  {
    Core(st(s, j).out) == Core(s[j..j + st(s, j).len])
  }

  /** Steps that keep `Core` make a scan that keeps it. */
  lemma {:induction false} ScanKeepsCore(st: Stepper, s: string, i: nat)
    requires i <= |s| && Advances(st)
    requires forall j :: i <= j < |s| ==> KeepsCoreAt(st, s, j)
    ensures Core(Scan(st, s, i)) == Core(s[i..])
    decreases |s| - i
  {
    if i < |s| {
      var h := st(s, i);
      assert KeepsCoreAt(st, s, i);
      ScanKeepsCore(st, s, i + h.len);
      CoreSplice(h.out, Scan(st, s, i + h.len), s, i, h.len);
      ScanStep(st, s, i);
    }
  }

  /** One step of the scan. */
  lemma ScanStep(st: Stepper, s: string, i: nat)
    requires i < |s| && Advances(st)
    ensures Scan(st, s, i) == st(s, i).out + Scan(st, s, i + st(s, i).len)
  {
  }

  /** Replacing two adjacent pieces of `s[i..]` by text with the same `Core`
      keeps the `Core` of the whole. */
  lemma CoreSplice(a: string, b: string, s: string, i: nat, n: nat)
    requires i + n <= |s|
    requires Core(a) == Core(s[i..i + n]) && Core(b) == Core(s[i + n..])
    ensures Core(a + b) == Core(s[i..])
  {
    assert s[i..] == s[i..i + n] + s[i + n..];
    CoreConcat(a, b);
    CoreConcat(s[i..i + n], s[i + n..]);
    SameJoin(Core(a + b), Core(a), Core(b), Core(s[i..]), Core(s[i..i + n]), Core(s[i + n..]));
  }

  /** Equal parts make equal joins, on abstract strings. */
  lemma SameJoin(ab: string, a: string, b: string, xy: string, x: string, y: string)
    requires ab == a + b && xy == x + y && a == x && b == y
    ensures ab == xy
  {
  }

  /** A character no step writes is not in the scan. */
  lemma {:induction false} ScanAvoids(st: Stepper, s: string, i: nat, c: char)
    requires i <= |s| && Advances(st)
    requires forall j :: i <= j < |s| ==> c !in st(s, j).out
    ensures c !in Scan(st, s, i)
    decreases |s| - i
  {
    if i < |s| {
      ScanAvoids(st, s, i + st(s, i).len, c);
    }
  }

  /** A literal pattern looks at no text before the scan position, so
      scanning a suffix gives the same result. */
  lemma LiteralSuffix(p: string, r: string, x: string, k: nat, i: nat)
    requires k + i <= |x|
    ensures Scan(StepOf(Literal(p, r)), x, k + i) == Scan(StepOf(Literal(p, r)), x[k..], i)
  {
    var st, y := StepOf(Literal(p, r)), x[k..];
    forall d | 0 <= d < |y| ensures st(x, k + d) == st(y, d) {
      assert y[d..] == x[k + d..];
      LiteralStepAgrees(p, r, x, k + d, y, d);
    }
    ScanShift(st, x, k, y, i);
  }

  /** When every step in `y` equals the step `k` places further in `x`,
      the two scans agree. */
  lemma {:induction false} ScanShift(st: Stepper, x: string, k: nat, y: string, i: nat)
    requires Advances(st) && k + |y| == |x| && i <= |y|
    requires forall d :: 0 <= d < |y| ==> st(x, k + d) == st(y, d)
    ensures Scan(st, x, k + i) == Scan(st, y, i)
    decreases |y| - i
  {
    if i < |y| {
      ScanShift(st, x, k, y, i + st(y, i).len);
      SameStepSameScan(st, x, k + i, y, i);
    }
  }

  /** When `x` takes the same steps as `p` over the length of `p`, the scan
      of `x` is the scan of `p` followed by the scan of `x` from `|p|` on. */
  lemma {:induction false} ScanPrefix(st: Stepper, x: string, p: string, i: nat)
    requires Advances(st) && |p| <= |x| && i <= |p|
    requires forall d :: 0 <= d < |p| ==> st(x, d) == st(p, d)
    ensures Scan(st, x, i) == Scan(st, p, i) + Scan(st, x, |p|)
    decreases |p| - i
  {
    if i < |p| {
      var h := st(p, i);
      ScanPrefix(st, x, p, i + h.len);
      ScanStep(st, x, i);
      ScanStep(st, p, i);
      ConsJoin(Scan(st, x, i), Scan(st, p, i), h.out, Scan(st, x, i + h.len),
               Scan(st, p, i + h.len), Scan(st, x, |p|));
    }
  }

  /** `o + (a + b)` regrouped, on abstract strings. */
  lemma ConsJoin(whole: string, left: string, o: string, tail: string, a: string, b: string)
    requires whole == o + tail && tail == a + b && left == o + a
    ensures whole == left + b
  {
  }

  /** Scans that take the same step and agree after it agree. */
  lemma SameStepSameScan(st: Stepper, x: string, a: nat, y: string, b: nat)
    requires a < |x| && b < |y| && Advances(st) && st(x, a) == st(y, b)
    requires Scan(st, x, a + st(x, a).len) == Scan(st, y, b + st(y, b).len)
    ensures Scan(st, x, a) == Scan(st, y, b)
  {
    ScanStep(st, x, a);
    ScanStep(st, y, b);
  }

  /** Two texts that agree from the scan position on take the same step. */
  lemma LiteralStepAgrees(p: string, r: string, x: string, i: nat, y: string, j: nat)
    requires i < |x| && j < |y| && x[i..] == y[j..]
    ensures StepOf(Literal(p, r))(x, i) == StepOf(Literal(p, r))(y, j)
  {
    assert x[i] == x[i..][0] && y[j] == y[j..][0];
    if p != [] && i + |p| <= |x| {
      assert x[i..i + |p|] == x[i..][..|p|];
      assert y[j..j + |p|] == y[j..][..|p|];
    }
  }

  // ---------------------------------------------------------------------
  // Text that holds no match is left as it is.

  lemma SubWithoutMatch(rule: Rule, s: string)
    requires forall j :: 0 <= j < |s| ==> MatchAt(rule, s, j).None?
    ensures Sub(rule, s) == s
  {
    forall j | 0 <= j < |s| ensures CopiesAt(StepOf(rule), s, j) {
    }
    ScanCopies(StepOf(rule), s, 0, |s|);
    assert s[0..|s|] == s;
  }

  // ---------------------------------------------------------------------
  // Substitutions that only move whitespace and commas keep `Core`.

  /** Every match of the rule replaces text by text with the same `Core`. */
  predicate KeepsCore(rule: Rule)
  {
    match rule
    case Literal(p, r) => Core(p) == Core(r)
    case AirportPair => false
    case _ => true
  }

  lemma CoreSpaceInserted(a: string, b: string)
    ensures Core(a + " " + b) == Core(a + b)
  {
    CoreConcat(a + " ", b);
    CoreConcat(a, " ");
    CoreConcat(a, b);
  }

  /** A space inserted anywhere leaves `Core` as it is. */
  lemma SpaceInsertedAt(seg: string, n: nat)
    requires n <= |seg|
    ensures Core(seg[..n] + " " + seg[n..]) == Core(seg)
  {
    CoreSpaceInserted(seg[..n], seg[n..]);
    SplitTwo(seg, n);
  }

  /** The step of `rule` at `i` writes text with the `Core` of what it
      consumes. */
  predicate StepKeepsCore(rule: Rule, s: string, i: nat)
    requires i < |s|
  {
    Core(Step(rule, s, i).out) == Core(s[i..i + Step(rule, s, i).len])
  }

  lemma StepCore(rule: Rule, s: string, i: nat)
    requires i < |s| && KeepsCore(rule)
    ensures StepKeepsCore(rule, s, i)
  {
    match rule
    case Literal(p, r) => LiteralCore(p, r, s, i);
    case AirportPair =>
    case GluedAmPm => GluedAmPmCore(s, i);
    case SpacedAmPm => SpacedAmPmCore(s, i);
    case AmPmLetter => AmPmLetterCore(s, i);
    case LowerUpper => LowerUpperCore(s, i);
    case DigitUpper => DigitUpperCore(s, i);
    case CodeUpper => CodeUpperCore(s, i);
    case LowerCode => LowerCodeCore(s, i);
  }

  lemma LiteralCore(p: string, r: string, s: string, i: nat)
    requires i < |s| && Core(p) == Core(r)
    ensures StepKeepsCore(Literal(p, r), s, i)
  {
    if MatchAt(Literal(p, r), s, i).None? {
      CopyCore(Literal(p, r), s, i);
    } else {
      assert s[i..i + |p|] == p;
    }
  }

  /** A step without a match copies one character. */
  lemma CopyCore(rule: Rule, s: string, i: nat)
    requires i < |s| && MatchAt(rule, s, i).None?
    ensures StepKeepsCore(rule, s, i)
  {
    assert Step(rule, s, i) == Hit(1, [s[i]]);
    assert s[i..i + 1] == [s[i]];
  }

  /** A hit that inserts one space after the first `n` of its `len`
      characters keeps `Core`. */
  lemma SplitHit(s: string, i: nat, len: nat, n: nat, out: string)
    requires i + len <= |s| && n <= len && out == s[i..i + n] + " " + s[i + n..i + len]
    ensures Core(out) == Core(s[i..i + len])
  {
    var seg := s[i..i + len];
    assert seg[..n] == s[i..i + n] && seg[n..] == s[i + n..i + len];
    SpaceInsertedAt(seg, n);
  }

  lemma AmPmLetterCore(s: string, i: nat)
    requires i < |s|
    ensures StepKeepsCore(AmPmLetter, s, i)
  {
    if MatchAt(AmPmLetter, s, i).None? {
      CopyCore(AmPmLetter, s, i);
    } else {
      SplitHit(s, i, 2, 2, Step(AmPmLetter, s, i).out);
    }
  }

  lemma LowerUpperCore(s: string, i: nat)
    requires i < |s|
    ensures StepKeepsCore(LowerUpper, s, i)
  {
    if MatchAt(LowerUpper, s, i).None? {
      CopyCore(LowerUpper, s, i);
    } else {
      SplitHit(s, i, 2, 1, Step(LowerUpper, s, i).out);
    }
  }

  lemma DigitUpperCore(s: string, i: nat)
    requires i < |s|
    ensures StepKeepsCore(DigitUpper, s, i)
  {
    if MatchAt(DigitUpper, s, i).None? {
      CopyCore(DigitUpper, s, i);
    } else {
      SplitHit(s, i, 2, 1, Step(DigitUpper, s, i).out);
    }
  }

  lemma CodeUpperCore(s: string, i: nat)
    requires i < |s|
    ensures StepKeepsCore(CodeUpper, s, i)
  {
    if MatchAt(CodeUpper, s, i).None? {
      CopyCore(CodeUpper, s, i);
    } else {
      SplitHit(s, i, 4, 3, Step(CodeUpper, s, i).out);
    }
  }

  lemma LowerCodeCore(s: string, i: nat)
    requires i < |s|
    ensures StepKeepsCore(LowerCode, s, i)
  {
    if MatchAt(LowerCode, s, i).None? {
      CopyCore(LowerCode, s, i);
    } else {
      SplitHit(s, i, 4, 1, Step(LowerCode, s, i).out);
    }
  }

  lemma GluedAmPmCore(s: string, i: nat)
    requires i < |s|
    ensures StepKeepsCore(GluedAmPm, s, i)
  {
    if MatchAt(GluedAmPm, s, i).None? {
      CopyCore(GluedAmPm, s, i);
    } else {
      var seg := s[i..i + 2];
      assert Step(GluedAmPm, s, i).out == " " + seg + " ";
      CoreSpaceInserted("", seg + " ");
      assert "" + " " + (seg + " ") == " " + seg + " ";
      assert "" + (seg + " ") == seg + " ";
      CoreSpaceInserted(seg, "");
      assert seg + " " + "" == seg + " " && seg + "" == seg;
    }
  }

  lemma SpacedAmPmCore(s: string, i: nat)
    requires i < |s|
    ensures StepKeepsCore(SpacedAmPm, s, i)
  {
    if MatchAt(SpacedAmPm, s, i).None? {
      CopyCore(SpacedAmPm, s, i);
    } else {
      var w := SpaceRun(s, i);
      SpaceRunBlank(s, i);
      assert Step(SpacedAmPm, s, i) == Hit(w + 2, " " + s[i + w..i + w + 2]);
      BlankBeforeAmPm(s, i, w);
    }
  }

  /** Whitespace then two characters, replaced by one space and those two. */
  lemma BlankBeforeAmPm(s: string, i: nat, w: nat)
    requires i + w + 2 <= |s| && forall k :: i <= k < i + w ==> IsSpace(s[k])
    ensures Core(" " + s[i + w..i + w + 2]) == Core(s[i..i + w + 2])
  {
    var blank, am := s[i..i + w], s[i + w..i + w + 2];
    assert s[i..i + w + 2] == blank + am;
    assert forall k :: 0 <= k < |blank| ==> IsSpace(blank[k]);
    CoreOfBlank(blank);
    CoreConcat(blank, am);
    CoreSpaceInserted("", am);
    assert "" + am == am && "" + " " + am == " " + am;
  }

  /** Only whitespace and commas differ between `s` and `Sub(rule, s)`. */
  lemma SubCore(rule: Rule, s: string)
    requires KeepsCore(rule)
    ensures Core(Sub(rule, s)) == Core(s)
  {
    var st := StepOf(rule);
    forall j | 0 <= j < |s| ensures KeepsCoreAt(st, s, j) {
      StepCore(rule, s, j);
    }
    ScanKeepsCore(st, s, 0);
    assert s[0..] == s;
  }

  lemma {:induction false} SubAllCore(rules: seq<Rule>, s: string)
    requires forall k :: 0 <= k < |rules| ==> KeepsCore(rules[k])
    ensures Core(SubAll(rules, s)) == Core(s)
  {
    if rules != [] {
      SubCore(rules[0], s);
      SubAllCore(rules[1..], Sub(rules[0], s));
    }
  }

  // ---------------------------------------------------------------------
  // Which characters a substitution can introduce.

  /** Characters a rule may write that need not come from the matched text. */
  function Inserted(rule: Rule): string
  {
    match rule
    case Literal(p, r) => NewChars(p, r)
    case AirportPair => ""
    case _ => " "
  }

  /** The characters of `r` that do not occur in `p`. */
  function NewChars(p: string, r: string): (n: string)
    ensures forall c :: c in n <==> c in r && c !in p
  {
    if r == [] then []
    else
      var rest := NewChars(p, r[1..]);
      assert forall c :: c in r <==> c == r[0] || c in r[1..];
      if r[0] in p then rest else [r[0]] + rest
  }

  /** The step of `rule` at `i` does not write `c`. */
  predicate StepAvoids(rule: Rule, s: string, i: nat, c: char)
    requires i < |s|
  {
    c !in Step(rule, s, i).out
  }

  lemma StepAbsent(rule: Rule, s: string, i: nat, c: char)
    requires i < |s| && c !in s && c !in Inserted(rule)
    ensures StepAvoids(rule, s, i, c)
  {
    match rule
    case Literal(p, r) => LiteralAvoids(p, r, s, i, c);
    case AirportPair => AirportAvoids(s, i, c);
    case GluedAmPm => GluedAmPmAvoids(s, i, c);
    case SpacedAmPm => SpacedAmPmAvoids(s, i, c);
    case AmPmLetter => AmPmLetterAvoids(s, i, c);
    case LowerUpper => LowerUpperAvoids(s, i, c);
    case DigitUpper => DigitUpperAvoids(s, i, c);
    case CodeUpper => CodeUpperAvoids(s, i, c);
    case LowerCode => LowerCodeAvoids(s, i, c);
  }

  /** A step without a match copies a character of the text. */
  lemma CopyAvoids(rule: Rule, s: string, i: nat, c: char)
    requires i < |s| && c !in s && MatchAt(rule, s, i).None?
    ensures StepAvoids(rule, s, i, c)
  {
    assert Step(rule, s, i) == Hit(1, [s[i]]);
  }

  lemma LiteralAvoids(p: string, r: string, s: string, i: nat, c: char)
    requires i < |s| && c !in s && c !in NewChars(p, r)
    ensures StepAvoids(Literal(p, r), s, i, c)
  {
    if MatchAt(Literal(p, r), s, i).None? {
      CopyAvoids(Literal(p, r), s, i, c);
    } else {
      assert c !in s[i..i + |p|];
    }
  }

  lemma AirportAvoids(s: string, i: nat, c: char)
    requires i < |s| && c !in s
    ensures StepAvoids(AirportPair, s, i, c)
  {
    if MatchAt(AirportPair, s, i).None? {
      CopyAvoids(AirportPair, s, i, c);
    }
  }

  lemma GluedAmPmAvoids(s: string, i: nat, c: char)
    requires i < |s| && c !in s && c != ' '
    ensures StepAvoids(GluedAmPm, s, i, c)
  {
    if MatchAt(GluedAmPm, s, i).None? {
      CopyAvoids(GluedAmPm, s, i, c);
    } else {
      assert c !in s[i..i + 2];
    }
  }

  lemma SpacedAmPmAvoids(s: string, i: nat, c: char)
    requires i < |s| && c !in s && c != ' '
    ensures StepAvoids(SpacedAmPm, s, i, c)
  {
    if MatchAt(SpacedAmPm, s, i).None? {
      CopyAvoids(SpacedAmPm, s, i, c);
    } else {
      var w := SpaceRun(s, i);
      assert c !in s[i + w..i + w + 2];
    }
  }

  lemma AmPmLetterAvoids(s: string, i: nat, c: char)
    requires i < |s| && c !in s && c != ' '
    ensures StepAvoids(AmPmLetter, s, i, c)
  {
    if MatchAt(AmPmLetter, s, i).None? {
      CopyAvoids(AmPmLetter, s, i, c);
    } else {
      assert c !in s[i..i + 2];
    }
  }

  lemma LowerUpperAvoids(s: string, i: nat, c: char)
    requires i < |s| && c !in s && c != ' '
    ensures StepAvoids(LowerUpper, s, i, c)
  {
    if MatchAt(LowerUpper, s, i).None? {
      CopyAvoids(LowerUpper, s, i, c);
    } else {
      assert s[i] != c && s[i + 1] != c;
    }
  }

  lemma DigitUpperAvoids(s: string, i: nat, c: char)
    requires i < |s| && c !in s && c != ' '
    ensures StepAvoids(DigitUpper, s, i, c)
  {
    if MatchAt(DigitUpper, s, i).None? {
      CopyAvoids(DigitUpper, s, i, c);
    } else {
      assert s[i] != c && s[i + 1] != c;
    }
  }

  lemma CodeUpperAvoids(s: string, i: nat, c: char)
    requires i < |s| && c !in s && c != ' '
    ensures StepAvoids(CodeUpper, s, i, c)
  {
    if MatchAt(CodeUpper, s, i).None? {
      CopyAvoids(CodeUpper, s, i, c);
    } else {
      assert c !in s[i..i + 3] && s[i + 3] != c;
    }
  }

  lemma LowerCodeAvoids(s: string, i: nat, c: char)
    requires i < |s| && c !in s && c != ' '
    ensures StepAvoids(LowerCode, s, i, c)
  {
    if MatchAt(LowerCode, s, i).None? {
      CopyAvoids(LowerCode, s, i, c);
    } else {
      assert s[i] != c && c !in s[i + 1..i + 4];
    }
  }

  /** A character that is neither in the text nor written by the rule does
      not appear in the result. */
  lemma SubAbsent(rule: Rule, s: string, c: char)
    requires c !in s && c !in Inserted(rule)
    ensures c !in Sub(rule, s)
  {
    var st := StepOf(rule);
    forall j | 0 <= j < |s| ensures c !in st(s, j).out {
      StepAbsent(rule, s, j, c);
    }
    ScanAvoids(st, s, 0, c);
  }

  lemma {:induction false} SubAllAbsent(rules: seq<Rule>, s: string, c: char)
    requires c !in s
    requires forall k :: 0 <= k < |rules| ==> c !in Inserted(rules[k])
    ensures c !in SubAll(rules, s)
  {
    if rules != [] {
      SubAbsent(rules[0], s, c);
      SubAllAbsent(rules[1..], Sub(rules[0], s), c);
    }
  }

  /** `s.replace(c, r)` for a single character `c` not occurring in `r`
      leaves no `c` behind. */
  lemma SubRemoves(c: char, r: string, s: string)
    requires c !in r
    ensures c !in Sub(Literal([c], r), s)
  {
    var st := StepOf(Literal([c], r));
    forall j | 0 <= j < |s| ensures c !in st(s, j).out {
      if s[j] == c {
        assert s[j..j + 1] == [c];
      }
    }
    ScanAvoids(st, s, 0, c);
  }

  // ---------------------------------------------------------------------
  // Boundaries between a lower-case letter or digit and an upper-case letter.

  /** Which characters, placed right before an upper-case letter, count as a
      missing word boundary. */
  datatype Left = Lowers | LowersAndDigits

  predicate InLeft(k: Left, c: char)
  {
    match k
    case Lowers => IsLower(c)
    case LowersAndDigits => IsLower(c) || IsDigit(c)
  }

  predicate Glued(k: Left, x: char, y: char)
  {
    InLeft(k, x) && IsUpper(y)
  }

  /** No character of class `k` is immediately followed by an upper-case letter. */
  predicate NoGlue(k: Left, t: string)
  {
    forall j :: 0 < j < |t| ==> !Glued(k, t[j - 1], t[j])
  }

  lemma NoGlueWeaken(t: string)
    requires NoGlue(LowersAndDigits, t)
    ensures NoGlue(Lowers, t)
  {
    forall j | 0 < j < |t| ensures !Glued(Lowers, t[j - 1], t[j]) {
      assert !Glued(LowersAndDigits, t[j - 1], t[j]);
    }
  }

  lemma NoGlueSlice(k: Left, t: string, a: nat, b: nat)
    requires a <= b <= |t| && NoGlue(k, t)
    ensures NoGlue(k, t[a..b])
  {
    forall j | 0 < j < b - a ensures !Glued(k, t[a..b][j - 1], t[a..b][j]) {
      assert t[a..b][j - 1] == t[a + j - 1] && t[a..b][j] == t[a + j];
    }
  }

  lemma NoGlueConcat(k: Left, a: string, b: string)
    requires NoGlue(k, a) && NoGlue(k, b)
    requires a != [] && b != [] ==> !Glued(k, Last(a), b[0])
    ensures NoGlue(k, a + b)
  {
    var t := a + b;
    forall j | 0 < j < |t| ensures !Glued(k, t[j - 1], t[j]) {
      if j < |a| {
        assert t[j - 1] == a[j - 1] && t[j] == a[j];
      } else if j == |a| {
        assert t[j - 1] == Last(a) && t[j] == b[0];
      } else {
        assert t[j - 1] == b[j - 1 - |a|] && t[j] == b[j - |a|];
      }
    }
  }

  /** A scan step is well-behaved for class `k`: its output is non-empty
      and free of glue, it starts with an upper-case letter only where the
      input did, and its last character is not glued to the next input
      character. */
  predicate StepOk(st: Stepper, k: Left, s: string, j: nat)
    requires j < |s|
  {
    var h := st(s, j);
    && h.out != []
    && NoGlue(k, h.out)
    && (IsUpper(h.out[0]) ==> IsUpper(s[j]))
    && (j + h.len < |s| ==> !Glued(k, Last(h.out), s[j + h.len]))
  }

  lemma {:induction false} ScanNoGlue(st: Stepper, k: Left, s: string, i: nat)
    requires i <= |s| && Advances(st)
    requires forall j :: i <= j < |s| ==> StepOk(st, k, s, j)
    ensures NoGlue(k, Scan(st, s, i))
    ensures i < |s| ==> Scan(st, s, i) != [] && (IsUpper(Scan(st, s, i)[0]) ==> IsUpper(s[i]))
    decreases |s| - i
  {
    if i < |s| {
      var h := st(s, i);
      assert StepOk(st, k, s, i);
      var rest := Scan(st, s, i + h.len);
      ScanNoGlue(st, k, s, i + h.len);
      NoGlueConcat(k, h.out, rest);
      assert (h.out + rest)[0] == h.out[0];
    }
  }

  /** The matched text's edges survive in the replacement, or are a space. */
  predicate EdgesKept(rule: Rule, s: string, j: nat)
    requires j < |s|
  {
    var h := Step(rule, s, j);
    && h.out != []
    && NoGlue(LowersAndDigits, h.out)
    && (h.out[0] == s[j] || h.out[0] == ' ')
    && (Last(h.out) == s[j + h.len - 1] || Last(h.out) == ' ')
  }

  /** Literal replacements whose replacement text keeps the pattern's edges. */
  predicate LiteralKeepsEdges(p: string, r: string)
  {
    p != [] && r != [] && NoGlue(LowersAndDigits, r)
    && (r[0] == p[0] || r[0] == ' ') && (Last(r) == Last(p) || Last(r) == ' ')
  }

  predicate KeepsEdges(rule: Rule)
  {
    match rule
    case Literal(p, r) => LiteralKeepsEdges(p, r)
    case AirportPair => false
    case _ => true
  }

  lemma StepEdges(rule: Rule, s: string, j: nat)
    requires j < |s| && KeepsEdges(rule)
    ensures EdgesKept(rule, s, j)
  {
    if MatchAt(rule, s, j).Some? {
      match rule
      case Literal(p, r) => LiteralEdges(p, r, s, j);
      case AirportPair =>
      case GluedAmPm => AmPmEdges(GluedAmPm, s, j);
      case SpacedAmPm => AmPmEdges(SpacedAmPm, s, j);
      case AmPmLetter => AmPmEdges(AmPmLetter, s, j);
      case LowerUpper => CaseEdges(LowerUpper, s, j);
      case DigitUpper => CaseEdges(DigitUpper, s, j);
      case CodeUpper => CaseEdges(CodeUpper, s, j);
      case LowerCode => CaseEdges(LowerCode, s, j);
    }
  }

  lemma LiteralEdges(p: string, r: string, s: string, j: nat)
    requires j < |s| && LiteralKeepsEdges(p, r) && MatchAt(Literal(p, r), s, j).Some?
    ensures EdgesKept(Literal(p, r), s, j)
  {
    assert s[j..j + |p|] == p;
    assert Last(p) == s[j + |p| - 1];
    assert p[0] == s[j];
  }

  lemma AmPmEdges(rule: Rule, s: string, j: nat)
    requires j < |s| && MatchAt(rule, s, j).Some?
    requires rule == GluedAmPm || rule == SpacedAmPm || rule == AmPmLetter
    ensures EdgesKept(rule, s, j)
  {
  }

  lemma CaseEdges(rule: Rule, s: string, j: nat)
    requires j < |s| && MatchAt(rule, s, j).Some?
    requires rule == LowerUpper || rule == DigitUpper || rule == CodeUpper || rule == LowerCode
    ensures EdgesKept(rule, s, j)
  {
  }

  lemma StepOkFromEdges(rule: Rule, k: Left, s: string, j: nat)
    requires j < |s| && KeepsEdges(rule) && NoGlue(k, s)
    ensures StepOk(StepOf(rule), k, s, j)
  {
    var h := Step(rule, s, j);
    StepEdges(rule, s, j);
    if k == Lowers {
      NoGlueWeaken(h.out);
    }
    if j + h.len < |s| && Last(h.out) != ' ' {
      assert !Glued(k, s[j + h.len - 1], s[j + h.len]);
    }
  }

  /** A rule that keeps edges keeps glue-free text glue-free. */
  lemma SubKeepsNoGlue(rule: Rule, k: Left, s: string)
    requires KeepsEdges(rule) && NoGlue(k, s)
    ensures NoGlue(k, Sub(rule, s))
  {
    forall j | 0 <= j < |s| ensures StepOk(StepOf(rule), k, s, j) {
      StepOkFromEdges(rule, k, s, j);
    }
    ScanNoGlue(StepOf(rule), k, s, 0);
  }

  lemma {:induction false} SubAllKeepsNoGlue(rules: seq<Rule>, k: Left, s: string)
    requires forall i :: 0 <= i < |rules| ==> KeepsEdges(rules[i])
    requires NoGlue(k, s)
    ensures NoGlue(k, SubAll(rules, s))
  {
    if rules != [] {
      SubKeepsNoGlue(rules[0], k, s);
      SubAllKeepsNoGlue(rules[1..], k, Sub(rules[0], s));
    }
  }

  /** `([a-z])([A-Z]) -> "\1 \2"` leaves no lower-case letter glued to an
      upper-case one, whatever the input. */
  lemma SubLowerUpper(s: string)
    ensures NoGlue(Lowers, Sub(LowerUpper, s))
  {
    var st := StepOf(LowerUpper);
    forall j | 0 <= j < |s| ensures StepOk(st, Lowers, s, j) {
      var h := Step(LowerUpper, s, j);
      if MatchAt(LowerUpper, s, j).None? && j + 1 < |s| {
        assert !Glued(Lowers, s[j], s[j + 1]);
      }
    }
    ScanNoGlue(st, Lowers, s, 0);
  }

  /** `(\d)([A-Z]) -> "\1 \2"` on text without lower/upper glue leaves no
      lower-case letter or digit glued to an upper-case one. */
  lemma SubDigitUpper(s: string)
    requires NoGlue(Lowers, s)
    ensures NoGlue(LowersAndDigits, Sub(DigitUpper, s))
  {
    var st := StepOf(DigitUpper);
    forall j | 0 <= j < |s| ensures StepOk(st, LowersAndDigits, s, j) {
      var h := Step(DigitUpper, s, j);
      if MatchAt(DigitUpper, s, j).None? && j + 1 < |s| {
        assert !Glued(Lowers, s[j], s[j + 1]);
        assert !Glued(LowersAndDigits, s[j], s[j + 1]);
      }
    }
    ScanNoGlue(st, LowersAndDigits, s, 0);
  }
}
