/** `escapeRegExp`: every regular-expression syntax character is preceded
    by a backslash, so the result matches the input literally. */
module RegExp {

  /** The characters the pattern `[.*+?^${}()|[\]\\]` selects. */
  predicate IsSpecial(c: char) {
    c in {'.', '*', '+', '?', '^', '$', '{', '}', '(', ')', '|', '[', ']', '\\'}
  }

  /** `escapeRegExp(string)`: a global replace of each special character
      by a backslash and the character itself. */
  function EscapeRegExp(s: string): string
    decreases |s|
  {
    if |s| == 0 then ""
    else (if IsSpecial(s[0]) then ['\\', s[0]] else [s[0]]) + EscapeRegExp(s[1..])
  }

  function CountSpecials(s: string): nat
    decreases |s|
  {
    if |s| == 0 then 0 else (if IsSpecial(s[0]) then 1 else 0) + CountSpecials(s[1..])
  }

  /** Drops each backslash that stands before a special character. */
  function Unescape(r: string): string
    decreases |r|
  {
    if |r| == 0 then ""
    else if |r| >= 2 && r[0] == '\\' && IsSpecial(r[1]) then [r[1]] + Unescape(r[2..])
    else [r[0]] + Unescape(r[1..])
  }

  /** The result is longer than the input by the number of special
      characters, and a string without any comes back unchanged. */
  lemma {:induction false} EscapeLength(s: string)
    ensures |EscapeRegExp(s)| == |s| + CountSpecials(s)
    ensures CountSpecials(s) == 0 ==> EscapeRegExp(s) == s
    decreases |s|
  {
    if |s| > 0 {
      EscapeLength(s[1..]);
      assert s == [s[0]] + s[1..];
    }
  }

  /** Escaping works character by character, so it distributes over
      concatenation. */
  lemma {:induction false} EscapeAppend(a: string, b: string)
    ensures EscapeRegExp(a + b) == EscapeRegExp(a) + EscapeRegExp(b)
    decreases |a|
  {
    if |a| > 0 {
      EscapeAppend(a[1..], b);
      assert (a + b)[1..] == a[1..] + b;
    } else {
      assert a + b == b;
    }
  }

  /** Removing the inserted backslashes gives the input back. */
  lemma {:induction false} UnescapeEscape(s: string)
    ensures Unescape(EscapeRegExp(s)) == s
    decreases |s|
  {
    if |s| > 0 {
      UnescapeEscape(s[1..]);
      var e := EscapeRegExp(s);
      var tail := EscapeRegExp(s[1..]);
      if IsSpecial(s[0]) {
        assert e[2..] == tail;
      } else {
        assert e[1..] == tail;
        assert e[0] == s[0] != '\\';
      }
      assert s == [s[0]] + s[1..];
    }
  }

  /** Character `i` of the input lands where the escaped prefix before it
      ends: a special character as a backslash followed by itself, any other
      character as itself. */
  lemma {:induction false} SpecialsEscaped(s: string, i: nat)
    requires i < |s|
    ensures var e := EscapeRegExp(s);
      var j := |EscapeRegExp(s[..i])|;
      && EscapeRegExp(s) == EscapeRegExp(s[..i]) + EscapeRegExp([s[i]]) + EscapeRegExp(s[i + 1..])
      && (IsSpecial(s[i]) ==> e[j] == '\\' && e[j + 1] == s[i])
      && (!IsSpecial(s[i]) ==> e[j] == s[i])
  {
    assert s == s[..i] + [s[i]] + s[i + 1..];
    EscapeAppend(s[..i], [s[i]]);
    EscapeAppend(s[..i] + [s[i]], s[i + 1..]);
    assert EscapeRegExp([s[i]]) == if IsSpecial(s[i]) then ['\\', s[i]] else [s[i]] by {
      assert [s[i]][1..] == "";
    }
  }
}
