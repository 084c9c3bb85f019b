/** String helpers: common prefix and suffix scans and the diff built on
    them, prefix and suffix subtraction, padding, single-position
    replacement, first-letter case changes, PascalCase and snake_case
    conversion and reversal. Case mapping covers the ASCII letters. */
module Strings {
  import opened Wrappers
  import opened Builtins
  import opened Values

  predicate IsPrefix(p: string, s: string) {
    |p| <= |s| && s[..|p|] == p
  }

  predicate IsSuffix(p: string, s: string) {
    |p| <= |s| && s[|s| - |p|..] == p
  }

  /** `r` is the longest common prefix of `a` and `b`: a prefix of both,
      and at position |r| one of them has ended or they differ. */
  predicate IsCommonStart(r: string, a: string, b: string) {
    IsPrefix(r, a) && IsPrefix(r, b) && (|r| == |a| || |r| == |b| || a[|r|] != b[|r|])
  }

  /** `r` is the longest common suffix of `a` and `b`. */
  predicate IsCommonEnd(r: string, a: string, b: string) {
    IsSuffix(r, a) && IsSuffix(r, b) &&
    (|r| == |a| || |r| == |b| || a[|a| - |r| - 1] != b[|b| - |r| - 1])
  }

  /* ---------- commonStart, commonEnd ---------- */

  /** `commonStart(string1, string2)`: advance while both strings agree. */
  method CommonStart(a: string, b: string) returns (r: string)
    ensures IsCommonStart(r, a, b)
  {
    var i := 0;
    while i < |a| && i < |b| && a[i] == b[i]
      invariant 0 <= i <= |a| && i <= |b|
      invariant a[..i] == b[..i]
    {
      i := i + 1;
    }
    r := a[..i];
  }

  /** `commonEnd(string1, string2)`: walk back from both ends while they
      agree. */
  method CommonEnd(a: string, b: string) returns (r: string)
    ensures IsCommonEnd(r, a, b)
  {
    var i := 0;
    while i < |a| && i < |b| && a[|a| - i - 1] == b[|b| - i - 1]
      invariant 0 <= i <= |a| && i <= |b|
      invariant a[|a| - i..] == b[|b| - i..]
    {
      assert a[|a| - (i + 1)..] == [a[|a| - i - 1]] + a[|a| - i..];
      assert b[|b| - (i + 1)..] == [b[|b| - i - 1]] + b[|b| - i..];
      i := i + 1;
    }
    r := a[|a| - i..];
  }

  /** Reference definition of the longest common prefix, by recursion on
      the front. */
  function CommonPrefix(a: string, b: string): string
    decreases |a|
  {
    if |a| == 0 || |b| == 0 || a[0] != b[0] then ""
    else [a[0]] + CommonPrefix(a[1..], b[1..])
  }

  /** Reference definition of the longest common suffix, by recursion on
      the back. */
  function CommonSuffix(a: string, b: string): string
    decreases |a|
  {
    if |a| == 0 || |b| == 0 || a[|a| - 1] != b[|b| - 1] then ""
    else CommonSuffix(a[..|a| - 1], b[..|b| - 1]) + [a[|a| - 1]]
  }

  /** Whatever satisfies the contract of `CommonStart` is the reference
      longest common prefix. */
  lemma {:induction false} CommonStartIsCommonPrefix(r: string, a: string, b: string)
    requires IsCommonStart(r, a, b)
    ensures r == CommonPrefix(a, b)
    decreases |a|
  {
    if |r| > 0 {
      assert a[0] == r[0] == b[0];
      assert IsCommonStart(r[1..], a[1..], b[1..]) by {
        assert a[1..][..|r| - 1] == a[..|r|][1..];
        assert b[1..][..|r| - 1] == b[..|r|][1..];
      }
      CommonStartIsCommonPrefix(r[1..], a[1..], b[1..]);
      assert r == [r[0]] + r[1..];
    }
  }

  /** Whatever satisfies the contract of `CommonEnd` is the reference
      longest common suffix. */
  lemma {:induction false} CommonEndIsCommonSuffix(r: string, a: string, b: string)
    requires IsCommonEnd(r, a, b)
    ensures r == CommonSuffix(a, b)
    decreases |a|
  {
    if |r| == 0 {
      assert |a| == 0 || |b| == 0 || a[|a| - 1] != b[|b| - 1];
    } else {
      CommonEndStep(r, a, b);
      CommonEndIsCommonSuffix(r[..|r| - 1], a[..|a| - 1], b[..|b| - 1]);
      CommonSuffixSnoc(r, a, b);
    }
  }

  lemma CommonSuffixSnoc(r: string, a: string, b: string)
    requires |r| > 0 && |a| > 0 && |b| > 0
    requires a[|a| - 1] == r[|r| - 1] == b[|b| - 1]
    requires r[..|r| - 1] == CommonSuffix(a[..|a| - 1], b[..|b| - 1])
    ensures r == CommonSuffix(a, b)
  {
    assert r == r[..|r| - 1] + [r[|r| - 1]];
  }

  /** Dropping the last character of a non-empty common suffix and of both
      strings keeps it a longest common suffix. */
  lemma CommonEndStep(r: string, a: string, b: string)
    requires IsCommonEnd(r, a, b) && |r| > 0
    ensures a[|a| - 1] == r[|r| - 1] == b[|b| - 1]
    ensures IsCommonEnd(r[..|r| - 1], a[..|a| - 1], b[..|b| - 1])
  {
    SuffixStep(r, a);
    SuffixStep(r, b);
  }

  lemma SuffixStep(r: string, a: string)
    requires IsSuffix(r, a) && |r| > 0
    ensures a[|a| - 1] == r[|r| - 1]
    ensures IsSuffix(r[..|r| - 1], a[..|a| - 1])
  {
    assert a[|a| - 1] == a[|a| - |r|..][|r| - 1];
    var a', r' := a[..|a| - 1], r[..|r| - 1];
    forall i | 0 <= i < |r'| ensures a'[|a'| - |r'| + i] == r'[i] {
      assert a'[|a'| - |r'| + i] == a[|a| - |r| + i];
    }
  }

  /** The longest common prefix is unique, so the contract of `CommonStart`
      determines its result. */
  lemma CommonStartUnique(a: string, b: string, r1: string, r2: string)
    requires IsCommonStart(r1, a, b) && IsCommonStart(r2, a, b)
    ensures r1 == r2
  {
    CommonStartIsCommonPrefix(r1, a, b);
    CommonStartIsCommonPrefix(r2, a, b);
  }

  /** The longest common suffix is unique. */
  lemma CommonEndUnique(a: string, b: string, r1: string, r2: string)
    requires IsCommonEnd(r1, a, b) && IsCommonEnd(r2, a, b)
    ensures r1 == r2
  {
    CommonEndIsCommonSuffix(r1, a, b);
    CommonEndIsCommonSuffix(r2, a, b);
  }

  /* ---------- subtraction ---------- */

  /** `subtractFromStart(string1, string2)`: drops `t` from the front of `s`
      when `s` starts with it, and otherwise returns `s`. */
  function SubtractFromStart(s: string, t: string): (r: string)
    ensures IsPrefix(t, s) ==> t + r == s
    ensures !IsPrefix(t, s) ==> r == s
  {
    if !IsPrefix(t, s) then s
    else
      assert s == s[..|t|] + s[|t|..];
      s[|t|..]
  }

  /** `subtractFromEnd(string1, string2)`: drops `t` from the end of `s`
      when `s` ends with it, and otherwise returns `s`. */
  function SubtractFromEnd(s: string, t: string): (r: string)
    ensures IsSuffix(t, s) ==> r + t == s
    ensures !IsSuffix(t, s) ==> r == s
  {
    if !IsSuffix(t, s) then s
    else
      assert s == s[..|s| - |t|] + s[|s| - |t|..];
      s[..|s| - |t|]
  }

  /** `subtractFromEdges(string1, string2)`: subtract `t` from the start,
      then from the end of what is left. */
  function SubtractFromEdges(s: string, t: string): string {
    SubtractFromEnd(SubtractFromStart(s, t), t)
  }

  /** Subtraction undoes concatenation on either side. */
  lemma SubtractInverts(t: string, m: string)
    ensures SubtractFromStart(t + m, t) == m
    ensures SubtractFromEnd(m + t, t) == m
    ensures SubtractFromEdges(t + m + t, t) == m
  {
    assert (t + m)[..|t|] == t;
    assert (m + t)[|m + t| - |t|..] == t;
    assert (t + m + t)[..|t|] == t;
    assert SubtractFromStart(t + m + t, t) == m + t by {
      assert t + m + t == t + (m + t);
    }
  }

  /* ---------- compare ---------- */

  /** The parts `compare` reports. */
  datatype Comparison = Comparison(commonStart: string, commonEnd: string, removed: string, added: string)

  /** `compare(current, previous)`: the longest common start, then the
      longest common end of what remains (so the two never overlap), and
      between them what was removed from `previous` and added in `current`. */
  method Compare(current: string, previous: string) returns (c: Comparison)
    ensures c.commonStart + c.added + c.commonEnd == current
    ensures c.commonStart + c.removed + c.commonEnd == previous
    ensures IsCommonStart(c.commonStart, current, previous)
    ensures IsCommonEnd(c.commonEnd, current[|c.commonStart|..], previous[|c.commonStart|..])
  {
    var start := CommonStart(current, previous);
    var currentWithoutStart := SubtractFromStart(current, start);
    var previousWithoutStart := SubtractFromStart(previous, start);
    assert currentWithoutStart == current[|start|..];
    assert previousWithoutStart == previous[|start|..];
    var end := CommonEnd(currentWithoutStart, previousWithoutStart);
    var currentWithoutStartAndEnd := SubtractFromEnd(currentWithoutStart, end);
    var previousWithoutStartAndEnd := SubtractFromEnd(previousWithoutStart, end);
    assert currentWithoutStartAndEnd + end == currentWithoutStart;
    assert previousWithoutStartAndEnd + end == previousWithoutStart;
    assert start + currentWithoutStart == current;
    assert start + previousWithoutStart == previous;
    ConcatAssociative(start, currentWithoutStartAndEnd, end);
    ConcatAssociative(start, previousWithoutStartAndEnd, end);
    c := Comparison(start, end, previousWithoutStartAndEnd, currentWithoutStartAndEnd);
  }

  const ExampleCurrent := "text with change in it"
  const ExamplePrevious := "text without changes in it"

  lemma ExampleCommonStart()
    ensures IsCommonStart("text with", ExampleCurrent, ExamplePrevious)
  {
    assert ExampleCurrent[..9] == "text with";
    assert ExamplePrevious[..9] == "text with";
  }

  lemma ExampleCommonEnd()
    ensures ExampleCurrent[9..] == " change in it"
    ensures ExamplePrevious[9..] == "out changes in it"
    ensures IsCommonEnd(" in it", " change in it", "out changes in it")
  {
    assert " change in it"[7..] == " in it";
    assert "out changes in it"[11..] == " in it";
  }

  lemma Middle(x: string, y: string, z: string)
    ensures (x + y + z)[|x|..|x + y + z| - |z|] == y
  {
  }

  /** The example from the documentation of `compare`. */
  method CompareExample() returns (c: Comparison)
    ensures c == Comparison("text with", " in it", "out changes", " change")
  {
    c := Compare(ExampleCurrent, ExamplePrevious);
    ExampleCommonStart();
    CommonStartUnique(ExampleCurrent, ExamplePrevious, c.commonStart, "text with");
    ExampleCommonEnd();
    CommonEndUnique(" change in it", "out changes in it", c.commonEnd, " in it");
    Middle(c.commonStart, c.added, c.commonEnd);
    Middle(c.commonStart, c.removed, c.commonEnd);
    assert ExampleCurrent[9..|ExampleCurrent| - 6] == " change";
    assert ExamplePrevious[9..|ExamplePrevious| - 6] == "out changes";
    assert c.added == " change";
    assert c.removed == "out changes";
  }

  /* ---------- padding, repeat, replacement ---------- */

  /** `String.prototype.repeat` as the exported `repeat` helper calls it: a
      negative count is a RangeError. */
  function Repeat(s: string, n: int): (r: Result<string, Error>)
    ensures n < 0 <==> r.Failure?
    ensures r.Failure? ==> r.error == RangeError
    ensures r.Success? ==> |r.value| == |s| * n
    ensures r.Success? ==> forall i :: 0 <= i < |r.value| ==> r.value[i] == s[i % |s|]
  {
    if n < 0 then Failure(RangeError)
    else
      RepeatStringAt(s, n);
      Success(RepeatString(s, n))
  }

  /** `padStart(string, length, padValue)`: unchanged when already long
      enough, otherwise `padValue` repeated `length - |s|` times in front. */
  function PadStart(s: string, length: int, padValue: string): (r: string)
    ensures |s| >= length ==> r == s
    ensures |s| < length ==> IsSuffix(s, r) && |r| == |s| + |padValue| * (length - |s|)
    ensures |s| < length ==> r[..|r| - |s|] == RepeatString(padValue, length - |s|)
  {
    if |s| >= length then s
    else
      var r := RepeatString(padValue, length - |s|) + s;
      assert r[|r| - |s|..] == s;
      r
  }

  /** `padEnd(string, length, padValue)`: unchanged when already long
      enough, otherwise `padValue` repeated `length - |s|` times after. */
  function PadEnd(s: string, length: int, padValue: string): (r: string)
    ensures |s| >= length ==> r == s
    ensures |s| < length ==> IsPrefix(s, r) && |r| == |s| + |padValue| * (length - |s|)
    ensures |s| < length ==> r[|s|..] == RepeatString(padValue, length - |s|)
  {
    if |s| >= length then s
    else s + RepeatString(padValue, length - |s|)
  }

  /** With a one-character pad the result has exactly the requested length:
      the pad character fills the front (or the back) and `s` follows (or
      precedes). */
  lemma PadSingleChar(s: string, length: int, c: char)
    requires |s| < length
    ensures |PadStart(s, length, [c])| == length && |PadEnd(s, length, [c])| == length
    ensures forall i :: 0 <= i < length - |s| ==> PadStart(s, length, [c])[i] == c
    ensures forall i :: |s| <= i < length ==> PadEnd(s, length, [c])[i] == c
  {
    RepeatChar(c, length - |s|);
  }

  /** `replaceStringAt(string, index, replacement)`: outside the string the
      input comes back unchanged; inside, the character at `index` is
      replaced by `replacement` and everything around it kept. */
  function ReplaceStringAt(s: string, index: int, replacement: string): (r: string)
    ensures index < 0 || index >= |s| ==> r == s
    ensures 0 <= index < |s| ==> |r| == |s| - 1 + |replacement|
    ensures 0 <= index < |s| ==> r[..index] == s[..index]
    ensures 0 <= index < |s| ==> r[index..index + |replacement|] == replacement
    ensures 0 <= index < |s| ==> r[index + |replacement|..] == s[index + 1..]
  {
    if index < 0 || index >= |s| then s
    else
      var r := s[..index] + replacement + s[index + 1..];
      assert r[..index] == s[..index];
      assert r[index..index + |replacement|] == replacement;
      assert r[index + |replacement|..] == s[index + 1..];
      r
  }

  /** Replacing a character by itself changes nothing. */
  lemma ReplaceWithSelf(s: string, index: int)
    requires 0 <= index < |s|
    ensures ReplaceStringAt(s, index, [s[index]]) == s
  {
    assert s == s[..index] + [s[index]] + s[index + 1..];
  }

  /* ---------- first-letter case ---------- */

  /** `lowerFirst(string)`: '' for '', otherwise only the first character is
      lower-cased. */
  function LowerFirst(s: string): (r: string)
    ensures |r| == |s|
    ensures |s| > 0 ==> r[0] == ToLowerChar(s[0]) && r[1..] == s[1..]
  {
    if |s| == 0 then "" else [ToLowerChar(s[0])] + s[1..]
  }

  /** `upperFirst(string)`: '' for '', otherwise only the first character is
      upper-cased. */
  function UpperFirst(s: string): (r: string)
    ensures |r| == |s|
    ensures |s| > 0 ==> r[0] == ToUpperChar(s[0]) && r[1..] == s[1..]
  {
    if |s| == 0 then "" else [ToUpperChar(s[0])] + s[1..]
  }

  /** Changing the first letter's case twice is the same as once, and
      `lowerFirst` undoes `upperFirst` on a string that starts lower-case. */
  lemma FirstCaseLaws(s: string)
    ensures UpperFirst(UpperFirst(s)) == UpperFirst(s)
    ensures LowerFirst(LowerFirst(s)) == LowerFirst(s)
    ensures |s| > 0 && IsAsciiLower(s[0]) ==> LowerFirst(UpperFirst(s)) == s
  {
    if |s| > 0 {
      assert UpperFirst(s)[1..] == s[1..];
      assert s == [s[0]] + s[1..];
    }
  }

  /* ---------- pascalCase, snakeCase ---------- */

  /** The separator both conversions use: a space if there is one, otherwise
      an underscore, otherwise a hyphen. */
  function Separator(s: string): (sep: Option<char>)
    ensures sep.Some? ==> sep.value in s && sep.value in {' ', '_', '-'}
    ensures sep.None? <==> ' ' !in s && '_' !in s && '-' !in s
    ensures ' ' in s ==> sep == Some(' ')
    ensures ' ' !in s && '_' in s ==> sep == Some('_')
    ensures ' ' !in s && '_' !in s && '-' in s ==> sep == Some('-')
  {
    if ' ' in s then Some(' ')
    else if '_' in s then Some('_')
    else if '-' in s then Some('-')
    else None
  }

  /** Each piece lower-cased and then given an upper-case first letter. */
  function Capitalized(parts: seq<string>): seq<string>
  {
    seq(|parts|, i requires 0 <= i < |parts| => UpperFirst(ToLower(parts[i])))
  }

  /** `pascalCase(string)`: unchanged when there is no separator; otherwise
      the pieces between separators, each lower-cased with an upper-case
      first letter, run together. */
  function PascalCase(s: string): (r: string)
    ensures Separator(s).None? ==> r == s
  {
    match Separator(s)
    case None => s
    case Some(sep) => Join(Capitalized(Split(s, sep)), "")
  }

  lemma {:induction false} CapitalizedLength(parts: seq<string>)
    ensures SumLen(Capitalized(parts)) == SumLen(parts)
    decreases |parts|
  {
    if |parts| > 0 {
      CapitalizedLength(parts[1..]);
      assert Capitalized(parts)[1..] == Capitalized(parts[1..]);
    }
  }

  /** A join with '' contains only characters of its pieces. */
  lemma {:induction false} JoinEmptyChars(parts: seq<string>, c: char)
    requires forall p :: p in parts ==> c !in p
    ensures c !in Join(parts, "")
    decreases |parts|
  {
    if |parts| > 1 {
      assert forall p :: p in parts[1..] ==> p in parts;
      JoinEmptyChars(parts[1..], c);
      assert parts[0] in parts;
    } else if |parts| == 1 {
      assert parts[0] in parts;
    }
  }

  /** Case mapping never produces or removes a separator character. */
  lemma CaseKeepsSeparators(c: char, x: char)
    requires c in {' ', '_', '-'}
    ensures ToLowerChar(x) == c <==> x == c
    ensures ToUpperChar(x) == c <==> x == c
  {
  }

  /** With a separator, `pascalCase` removes exactly the separators: the
      result is shorter by their number and contains none. */
  lemma PascalCaseDropsSeparators(s: string)
    requires Separator(s).Some?
    ensures |PascalCase(s)| == |s| - multiset(s)[Separator(s).value]
    ensures Separator(s).value !in PascalCase(s)
  {
    var sep := Separator(s).value;
    var parts := Split(s, sep);
    SplitCounts(s, sep);
    CapitalizedLength(parts);
    JoinEmptyLength(Capitalized(parts));
    SplitPiecesLackSeparator(s, sep);
    forall p | p in Capitalized(parts) ensures sep !in p {
      var i :| 0 <= i < |parts| && Capitalized(parts)[i] == p;
      assert parts[i] in parts;
      forall j | 0 <= j < |p| ensures p[j] != sep {
        var l := ToLower(parts[i]);
        if j == 0 {
          CaseKeepsSeparators(sep, l[0]);
          CaseKeepsSeparators(sep, parts[i][0]);
        } else {
          assert p[j] == l[j];
          CaseKeepsSeparators(sep, parts[i][j]);
        }
      }
    }
    JoinEmptyChars(Capitalized(parts), sep);
  }

  /** With a separator, where each character of each piece lands in
      `pascalCase`'s result: after all earlier pieces (the separators are
      gone), the first character of a piece upper-cased and the others
      lower-cased. */
  lemma PascalCaseAt(s: string, k: nat, i: nat)
    requires Separator(s).Some?
    requires var pieces := Split(s, Separator(s).value); k < |pieces| && i < |pieces[k]|
    ensures var pieces := Split(s, Separator(s).value);
      var r, j := PascalCase(s), SumLen(pieces[..k]) + i;
      && j < |r|
      && (i == 0 ==> r[j] == ToUpperChar(pieces[k][0]))
      && (i > 0 ==> r[j] == ToLowerChar(pieces[k][i]))
  {
    var pieces := Split(s, Separator(s).value);
    var caps := Capitalized(pieces);
    assert caps[..k] == Capitalized(pieces[..k]);
    CapitalizedLength(pieces[..k]);
    assert caps[k] == UpperFirst(ToLower(pieces[k]));
    JoinEmptyAt(caps, k, i);
    UpperOfLower(pieces[k][0]);
  }

  /** Upper-casing forgets an earlier lower-casing. */
  lemma UpperOfLower(c: char)
    ensures ToUpperChar(ToLowerChar(c)) == ToUpperChar(c)
  {
  }

  /** Character `i` of piece `k` sits in a join with '' after all earlier
      pieces. */
  lemma {:induction false} JoinEmptyAt(parts: seq<string>, k: nat, i: nat)
    requires k < |parts| && i < |parts[k]|
    ensures SumLen(parts[..k]) + i < |Join(parts, "")|
    ensures Join(parts, "")[SumLen(parts[..k]) + i] == parts[k][i]
    decreases k
  {
    assert SumLen(parts[..0]) == 0 by { assert parts[..0] == []; }
    if |parts| > 1 {
      var rest := Join(parts[1..], "");
      assert Join(parts, "") == parts[0] + rest by {
        assert parts[0] + "" == parts[0];
      }
      if k > 0 {
        JoinEmptyAt(parts[1..], k - 1, i);
        assert parts[1..][..k - 1] == parts[..k][1..];
        assert SumLen(parts[..k]) == |parts[0]| + SumLen(parts[..k][1..]);
      }
    }
  }

  /** Every character after the first, with an underscore in front of each
      ASCII capital. */
  function MarkCapitals(t: string): string
    decreases |t|
  {
    if |t| == 0 then ""
    else (if IsAsciiUpper(t[0]) then ['_', t[0]] else [t[0]]) + MarkCapitals(t[1..])
  }

  /** The pieces lower-cased, empty ones dropped. */
  function NonEmptyLowered(parts: seq<string>): (r: seq<string>)
    ensures forall p :: p in r ==> p != ""
    ensures forall p :: p in r ==> exists q :: q in parts && p == ToLower(q)
    decreases |parts|
  {
    if |parts| == 0 then []
    else
      var rest := NonEmptyLowered(parts[1..]);
      assert forall q :: q in parts[1..] ==> q in parts;
      if |parts[0]| == 0 then rest else [ToLower(parts[0])] + rest
  }

  /** `snakeCase(string)`: without a separator, an underscore before every
      capital except at the start, then lower-case; with one, the pieces
      lower-cased, empty ones dropped, joined with '_'. */
  function SnakeCase(s: string): (r: string)
    ensures forall i :: 0 <= i < |r| ==> !IsAsciiUpper(r[i])
  {
    match Separator(s)
    case None =>
      if |s| == 0 then "" else ToLower([s[0]] + MarkCapitals(s[1..]))
    case Some(sep) =>
      var parts := NonEmptyLowered(Split(s, sep));
      assert forall p :: p in parts ==> forall i :: 0 <= i < |p| ==> !IsAsciiUpper(p[i]);
      NoUpperJoin(parts, "_");
      Join(parts, "_")
  }

  lemma {:induction false} NoUpperJoin(parts: seq<string>, sep: string)
    requires forall i :: 0 <= i < |sep| ==> !IsAsciiUpper(sep[i])
    requires forall p :: p in parts ==> forall i :: 0 <= i < |p| ==> !IsAsciiUpper(p[i])
    ensures forall i :: 0 <= i < |Join(parts, sep)| ==> !IsAsciiUpper(Join(parts, sep)[i])
    decreases |parts|
  {
    if |parts| > 1 {
      assert forall p :: p in parts[1..] ==> p in parts;
      NoUpperJoin(parts[1..], sep);
      assert parts[0] in parts;
      var j := Join(parts[1..], sep);
      forall i | 0 <= i < |parts[0] + sep + j| ensures !IsAsciiUpper((parts[0] + sep + j)[i]) {
        if i < |parts[0]| {
        } else if i < |parts[0]| + |sep| {
          assert (parts[0] + sep + j)[i] == sep[i - |parts[0]|];
        } else {
          assert (parts[0] + sep + j)[i] == j[i - |parts[0]| - |sep|];
        }
      }
    } else if |parts| == 1 {
      assert parts[0] in parts;
    }
  }

  /** The string with every `c` removed. */
  function Without(s: string, c: char): (r: string)
    decreases |s|
  {
    if |s| == 0 then "" else (if s[0] == c then "" else [s[0]]) + Without(s[1..], c)
  }

  lemma {:induction false} WithoutMarks(t: string)
    requires '_' !in t
    ensures Without(MarkCapitals(t), '_') == t
    decreases |t|
  {
    if |t| > 0 {
      WithoutMarks(t[1..]);
      var head := if IsAsciiUpper(t[0]) then ['_', t[0]] else [t[0]];
      WithoutConcat(head, MarkCapitals(t[1..]), '_');
      if IsAsciiUpper(t[0]) {
        assert Without(head, '_') == [t[0]] by {
          assert head[1..] == [t[0]];
          assert [t[0]][1..] == "";
        }
      } else {
        assert Without(head, '_') == [t[0]] by { assert [t[0]][1..] == ""; }
      }
      assert t == [t[0]] + t[1..];
    }
  }

  lemma {:induction false} WithoutConcat(a: string, b: string, c: char)
    ensures Without(a + b, c) == Without(a, c) + Without(b, c)
    decreases |a|
  {
    if |a| > 0 {
      WithoutConcat(a[1..], b, c);
      assert (a + b)[1..] == a[1..] + b;
    } else {
      assert a + b == b;
    }
  }

  lemma {:induction false} WithoutLower(s: string)
    ensures Without(ToLower(s), '_') == ToLower(Without(s, '_'))
    decreases |s|
  {
    if |s| > 0 {
      WithoutLower(s[1..]);
      assert ToLower(s)[1..] == ToLower(s[1..]);
      CaseKeepsSeparators('_', s[0]);
      if s[0] != '_' {
        assert ToLower([s[0]] + Without(s[1..], '_')) == [ToLowerChar(s[0])] + ToLower(Without(s[1..], '_'));
      }
    }
  }

  /** Without a separator, `snakeCase` only inserts underscores and lowers
      case: deleting the underscores from its result gives the lower-cased
      input, and the result is longer by the number of capitals after the
      first character. */
  lemma SnakeCaseWithoutSeparator(s: string)
    requires Separator(s).None?
    ensures Without(SnakeCase(s), '_') == ToLower(s)
    ensures |s| > 0 ==> |SnakeCase(s)| == |s| + CountCapitals(s[1..])
  {
    if |s| > 0 {
      var m := [s[0]] + MarkCapitals(s[1..]);
      assert '_' !in s[1..];
      WithoutMarks(s[1..]);
      WithoutConcat([s[0]], MarkCapitals(s[1..]), '_');
      assert Without([s[0]], '_') == [s[0]] by { assert [s[0]][1..] == ""; }
      WithoutLower(m);
      assert s == [s[0]] + s[1..];
      MarkCapitalsLength(s[1..]);
    }
  }

  /** Where each character of `t` lands in `MarkCapitals(t)`: after the
      characters before it and one underscore per capital among them; a
      capital is preceded by its own underscore. */
  lemma {:induction false} MarkCapitalsAt(t: string, i: nat)
    requires i < |t|
    ensures var m, j := MarkCapitals(t), i + CountCapitals(t[..i]);
      && (IsAsciiUpper(t[i]) ==> j + 1 < |m| && m[j] == '_' && m[j + 1] == t[i])
      && (!IsAsciiUpper(t[i]) ==> j < |m| && m[j] == t[i])
    decreases i
  {
    var head := if IsAsciiUpper(t[0]) then ['_', t[0]] else [t[0]];
    assert MarkCapitals(t) == head + MarkCapitals(t[1..]);
    if i > 0 {
      MarkCapitalsAt(t[1..], i - 1);
      assert t[..i][1..] == t[1..][..i - 1];
      assert CountCapitals(t[..i]) == (if IsAsciiUpper(t[0]) then 1 else 0) + CountCapitals(t[1..][..i - 1]);
    } else {
      assert CountCapitals(t[..0]) == 0;
    }
  }

  /** Without a separator, where each input character lands in `snakeCase`'s
      result: the first character lower-cased at the front; any later
      character after the earlier ones and one underscore per capital among
      them, a capital as an underscore followed by its lower-case form. */
  lemma SnakeCaseAt(s: string, i: nat)
    requires Separator(s).None?
    requires i < |s|
    ensures var r := SnakeCase(s);
      && (i == 0 ==> r[0] == ToLowerChar(s[0]))
      && (0 < i && IsAsciiUpper(s[i]) ==>
            var j := i + CountCapitals(s[1..i]);
            j + 1 < |r| && r[j] == '_' && r[j + 1] == ToLowerChar(s[i]))
      && (0 < i && !IsAsciiUpper(s[i]) ==>
            var j := i + CountCapitals(s[1..i]);
            j < |r| && r[j] == ToLowerChar(s[i]))
  {
    var m := [s[0]] + MarkCapitals(s[1..]);
    assert SnakeCase(s) == ToLower(m);
    if i > 0 {
      MarkCapitalsAt(s[1..], i - 1);
      assert s[1..][..i - 1] == s[1..i];
      assert s[1..][i - 1] == s[i];
      CaseKeepsSeparators('_', '_');
    }
  }

  function CountCapitals(t: string): nat
    decreases |t|
  {
    if |t| == 0 then 0 else (if IsAsciiUpper(t[0]) then 1 else 0) + CountCapitals(t[1..])
  }

  lemma {:induction false} MarkCapitalsLength(t: string)
    ensures |MarkCapitals(t)| == |t| + CountCapitals(t)
    decreases |t|
  {
    if |t| > 0 { MarkCapitalsLength(t[1..]); }
  }

  /** With an underscore, a hyphen, or a space in a string without
      underscores as separator, `snakeCase` never leaves an
      empty segment: its result, split on '_', gives back exactly the
      non-empty lower-cased pieces, so there is no leading, trailing or
      doubled underscore. */
  lemma SnakeCaseSegments(s: string)
    requires Separator(s).Some? && !(' ' in s && '_' in s)
    ensures SnakeCase(s) == "" || Split(SnakeCase(s), '_') == NonEmptyLowered(Split(s, Separator(s).value))
    ensures SnakeCase(s) == "" || forall p :: p in Split(SnakeCase(s), '_') ==> p != ""
  {
    var sep := Separator(s).value;
    var pieces := Split(s, sep);
    var parts := NonEmptyLowered(pieces);
    SplitPiecesLackSeparator(s, sep);
    forall q | q in pieces ensures '_' !in q {
      if sep != '_' {
        forall j | 0 <= j < |q| ensures q[j] != '_' {
          SplitPiecesSubset(s, sep, q, j);
        }
      }
    }
    forall p | p in parts ensures '_' !in p {
      var q :| q in pieces && p == ToLower(q);
      forall j | 0 <= j < |p| ensures p[j] != '_' { CaseKeepsSeparators('_', q[j]); }
    }
    if |parts| > 0 {
      SplitJoin(parts, '_');
    }
  }

  /** Every character of a piece occurs in the string. */
  lemma {:induction false} SplitPiecesSubset(s: string, sep: char, q: string, j: nat)
    requires q in Split(s, sep) && j < |q|
    ensures q[j] in s
    decreases |s|
  {
    if |s| > 0 {
      var rest := Split(s[1..], sep);
      if s[0] == sep {
        assert q == "" || q in rest;
        if q != "" { SplitPiecesSubset(s[1..], sep, q, j); }
      } else {
        if q == [s[0]] + rest[0] {
          if j > 0 {
            assert rest[0] in rest;
            SplitPiecesSubset(s[1..], sep, rest[0], j - 1);
          }
        } else {
          assert q in rest[1..];
          assert q in rest;
          SplitPiecesSubset(s[1..], sep, q, j);
        }
      }
    }
  }

  /* ---------- reverse ---------- */

  /** `reverse(string)`: the characters in the opposite order. */
  function Reverse(s: string): (r: string)
    ensures |r| == |s|
    ensures forall i :: 0 <= i < |s| ==> r[i] == s[|s| - 1 - i]
  {
    seq(|s|, i requires 0 <= i < |s| => s[|s| - 1 - i])
  }

  /** Reversing twice gives the string back, and reversal turns a
      concatenation around. */
  lemma ReverseLaws(a: string, b: string)
    ensures Reverse(Reverse(a)) == a
    ensures Reverse(a + b) == Reverse(b) + Reverse(a)
  {
  }
}
