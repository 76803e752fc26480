/** Character classes and the string primitives of Python's `str` that the
    flight pipeline relies on: `isspace`, `strip`, `splitlines`, `isdigit`. */
module Text {

  datatype Option<T> = None | Some(value: T)

  /** Python's `str.isspace` (equivalently the `\s` class of `re` on str). */
  predicate IsSpace(c: char)
  {
    ('\t' <= c <= '\r') || ('\U{1C}' <= c <= '\U{1F}') || c == ' '
    || c == '\U{85}' || c == '\U{A0}' || c == '\U{1680}'
    || ('\U{2000}' <= c <= '\U{200A}') || c == '\U{2028}' || c == '\U{2029}'
    || c == '\U{202F}' || c == '\U{205F}' || c == '\U{3000}'
  }

  /** The characters at which Python's `str.splitlines` breaks a line. */
  predicate IsLineBreak(c: char)
  {
    c == '\n' || c == '\r' || c == '\U{0B}' || c == '\U{0C}'
    || ('\U{1C}' <= c <= '\U{1E}') || c == '\U{85}' || c == '\U{2028}' || c == '\U{2029}'
  }

  lemma LineBreakIsSpace(c: char)
    ensures IsLineBreak(c) ==> IsSpace(c)
  {
  }

  /** ASCII approximations of `\d`, `[A-Z]`, `[a-z]`. */
  predicate IsDigit(c: char) { '0' <= c <= '9' }
  predicate IsUpper(c: char) { 'A' <= c <= 'Z' }
  predicate IsLower(c: char) { 'a' <= c <= 'z' }
  predicate IsLetter(c: char) { IsUpper(c) || IsLower(c) }

  /** Python's `str.isdigit`: at least one character and all of them digits. */
  predicate IsDigitString(s: string)
  {
    |s| > 0 && forall i :: 0 <= i < |s| ==> IsDigit(s[i])
  }

  predicate HasNonSpace(s: string)
  {
    exists i :: 0 <= i < |s| && !IsSpace(s[i])
  }

  /** No whitespace at either end: what `strip()` guarantees. */
  predicate Trimmed(s: string)
  {
    s == [] || (!IsSpace(s[0]) && !IsSpace(s[|s| - 1]))
  }

  predicate NoLineBreak(s: string)
  {
    forall i :: 0 <= i < |s| ==> !IsLineBreak(s[i])
  }

  function Min(a: int, b: int): int { if a <= b then a else b }

  /** A prefix one element longer is the prefix with that element appended. */
  lemma PrefixSnoc<T>(s: seq<T>, i: nat)
    requires i < |s|
    ensures s[..i + 1] == s[..i] + [s[i]]
  {
  }

  /** Number of leading whitespace characters of `s`. */
  function LeadingSpaces(s: string): (k: nat)
    ensures k <= |s|
    ensures forall i :: 0 <= i < k ==> IsSpace(s[i])
    ensures k < |s| ==> !IsSpace(s[k])
  {
    if s == [] || !IsSpace(s[0]) then 0 else 1 + LeadingSpaces(s[1..])
  }

  /** Length of `s` without its trailing whitespace. */
  function TrailingEnd(s: string): (k: nat)
    ensures k <= |s|
    ensures forall i :: k <= i < |s| ==> IsSpace(s[i])
    ensures k > 0 ==> !IsSpace(s[k - 1])
  {
    if s == [] || !IsSpace(s[|s| - 1]) then |s| else TrailingEnd(s[..|s| - 1])
  }

  /** `s.strip()`: the slice of `s` between its leading and its trailing
      whitespace. */
  function Strip(s: string): (r: string)
    ensures Trimmed(r)
    ensures |r| <= |s|
  {
    var a := LeadingSpaces(s);
    if a == |s| then []
    else
      assert TrailingEnd(s) > a;
      s[a..TrailingEnd(s)]
  }

  lemma StripSlice(s: string) returns (a: nat, e: nat)
    requires HasNonSpace(s)
    ensures a == LeadingSpaces(s) && a < e <= |s| && Strip(s) == s[a..e]
    ensures e < |s| ==> IsSpace(s[e])
    ensures forall j :: e <= j < |s| ==> IsSpace(s[j])
  {
    a := LeadingSpaces(s);
    e := TrailingEnd(s);
  }

  /** `strip` leaves stripped text alone. */
  lemma TrimmedStrip(t: string)
    requires Trimmed(t)
    ensures Strip(t) == t
  {
    if t != [] {
      assert LeadingSpaces(t) == 0;
      assert TrailingEnd(t) == |t|;
    }
  }

  /** `strip` empties exactly the blank strings. */
  lemma StripEmpty(s: string)
    ensures Strip(s) == [] <==> !HasNonSpace(s)
  {
    if HasNonSpace(s) {
      var i :| 0 <= i < |s| && !IsSpace(s[i]);
      assert LeadingSpaces(s) <= i;
    }
  }

  /** `strip` adds no character. */
  lemma StripAbsent(s: string, c: char)
    requires c !in s
    ensures c !in Strip(s)
  {
    if LeadingSpaces(s) < |s| {
      var a, e := LeadingSpaces(s), TrailingEnd(s);
      forall i | 0 <= i < e - a ensures s[a..e][i] != c {
        assert s[a..e][i] == s[a + i];
      }
    }
  }

  lemma StripOfText(s: string)
    requires HasNonSpace(s)
    ensures HasNonSpace(Strip(s))
  {
    StripEmpty(s);
    assert !IsSpace(Strip(s)[0]);
  }

  /** Index of the first line break of `s`, or `|s|` when there is none. */
  function FirstBreak(s: string): (k: nat)
    ensures k <= |s|
  {
    if s == [] then 0
    else if IsLineBreak(s[0]) then 0
    else 1 + FirstBreak(s[1..])
  }

  /** `FirstBreak` stops at the first break and at no earlier character. */
  lemma {:induction false} FirstBreakSpec(s: string)
    ensures FirstBreak(s) < |s| ==> IsLineBreak(s[FirstBreak(s)])
    ensures forall i :: 0 <= i < FirstBreak(s) ==> !IsLineBreak(s[i])
  {
    if s != [] && !IsLineBreak(s[0]) {
      FirstBreakSpec(s[1..]);
      forall i | 0 < i < FirstBreak(s) ensures !IsLineBreak(s[i]) {
        assert s[i] == s[1..][i - 1];
      }
    }
  }

  /** The index of the first break is determined by where the breaks are. */
  lemma FirstBreakIs(s: string, k: nat)
    requires k <= |s| && (k < |s| ==> IsLineBreak(s[k]))
    requires forall i :: 0 <= i < k ==> !IsLineBreak(s[i])
    ensures FirstBreak(s) == k
  {
    FirstBreakSpec(s);
  }

  /** `s.splitlines()`, splitting at each break character.  Python also
      treats "\r\n" as one break and drops a final empty line; both only add
      or remove blank lines, which every user below discards or never reaches. */
  function Lines(s: string): (ls: seq<string>)
    ensures |ls| > 0
    decreases |s|
  {
    var k := FirstBreak(s);
    if k == |s| then [s] else [s[..k]] + Lines(s[k + 1..])
  }

  /** No line holds a break character. */
  lemma {:induction false} LinesNoBreak(s: string)
    ensures forall i :: 0 <= i < |Lines(s)| ==> NoLineBreak(Lines(s)[i])
    decreases |s|
  {
    var k := FirstBreak(s);
    FirstBreakSpec(s);
    if k < |s| {
      LinesNoBreak(s[k + 1..]);
      assert Lines(s) == [s[..k]] + Lines(s[k + 1..]);
    }
  }

  /** `[ln.strip() for ln in lines if ln.strip()]` */
  function StrippedNonBlank(ls: seq<string>): (r: seq<string>)
    ensures forall i :: 0 <= i < |r| ==> r[i] != [] && Trimmed(r[i])
    ensures |r| <= |ls|
  {
    if ls == [] then []
    else
      var rest := StrippedNonBlank(ls[..|ls| - 1]);
      var t := Strip(ls[|ls| - 1]);
      if t == [] then rest else rest + [t]
  }

  /** The characters that survive when every whitespace character and every
      comma is dropped: what the spacing repair must leave untouched. */
  function Core(s: string): (r: string)
    ensures |r| <= |s|
  {
    if s == [] then []
    else if IsSpace(s[0]) || s[0] == ',' then Core(s[1..])
    else [s[0]] + Core(s[1..])
  }

  lemma {:induction false} CoreConcat(a: string, b: string)
    ensures Core(a + b) == Core(a) + Core(b)
  {
    if a != [] {
      assert (a + b)[0] == a[0];
      assert (a + b)[1..] == a[1..] + b;
      CoreConcat(a[1..], b);
    } else {
      assert a + b == b;
    }
  }

  /** The spaces `strip` removes are invisible to `Core`. */
  lemma {:induction false} CoreOfBlank(s: string)
    requires forall i :: 0 <= i < |s| ==> IsSpace(s[i])
    ensures Core(s) == []
  {
    if s != [] {
      CoreOfBlank(s[1..]);
    }
  }

  lemma CoreStrip(s: string)
    ensures Core(Strip(s)) == Core(s)
  {
    var a := LeadingSpaces(s);
    if a == |s| {
      CoreOfBlank(s);
    } else {
      var b := TrailingEnd(s);
      BlankPrefix(s, a);
      BlankSuffix(s, b);
      CoreFramed(s, a, b);
    }
  }

  /** `Core` of a slice whose surroundings have an empty `Core`. */
  lemma CoreFramed(s: string, a: nat, b: nat)
    requires a <= b <= |s| && Core(s[..a]) == [] && Core(s[b..]) == []
    ensures Core(s[a..b]) == Core(s)
  {
    var x, y, z := s[..a], s[a..b], s[b..];
    SplitThree(s, a, b);
    CoreConcat(x + y, z);
    CoreConcat(x, y);
    DropEmpty(Core(s), Core(x + y), Core(x), Core(y), Core(z));
  }

  lemma SplitTwo<T>(s: seq<T>, n: nat)
    requires n <= |s|
    ensures s[..n] + s[n..] == s
  {
  }

  lemma SplitThree<T>(s: seq<T>, a: nat, b: nat)
    requires a <= b <= |s|
    ensures s == s[..a] + s[a..b] + s[b..]
  {
  }

  /** `[] + y + []` is `y`, on abstract strings. */
  lemma DropEmpty(whole: string, left: string, x: string, y: string, z: string)
    requires whole == left + z && left == x + y && x == [] && z == []
    ensures whole == y
  {
  }

  lemma BlankPrefix(s: string, a: nat)
    requires a <= |s| && forall i :: 0 <= i < a ==> IsSpace(s[i])
    ensures Core(s[..a]) == []
  {
    var t := s[..a];
    forall i | 0 <= i < |t| ensures IsSpace(t[i]) {
      assert t[i] == s[i];
    }
    CoreOfBlank(t);
  }

  lemma BlankSuffix(s: string, b: nat)
    requires b <= |s| && forall i :: b <= i < |s| ==> IsSpace(s[i])
    ensures Core(s[b..]) == []
  {
    var t := s[b..];
    forall i | 0 <= i < |t| ensures IsSpace(t[i]) {
      assert t[i] == s[b + i];
    }
    CoreOfBlank(t);
  }
}
