/** The JavaScript built-ins the helpers are written with, restricted to what
    the helpers use: `String.prototype.split` with a one-character separator,
    `Array.prototype.join`, `String.prototype.repeat`, ASCII case mapping,
    decimal printing of integers and the default `Array.prototype.sort`
    order on strings. */
module Builtins {

  /* ---------- split and join ---------- */

  /** `s.split(sep)` for a one-character separator: the pieces between
      separators, empty pieces included, and `[""]` for the empty string. */
  function Split(s: string, sep: char): (parts: seq<string>)
    ensures |parts| >= 1
    decreases |s|
  {
    if |s| == 0 then [""]
    else
      var rest := Split(s[1..], sep);
      if s[0] == sep then [""] + rest
      else [[s[0]] + rest[0]] + rest[1..]
  }

  /** `parts.join(sep)`. */
  function Join(parts: seq<string>, sep: string): (s: string)
    decreases |parts|
  {
    if |parts| == 0 then ""
    else if |parts| == 1 then parts[0]
    else parts[0] + sep + Join(parts[1..], sep)
  }

  /** Total length of a list of strings. */
  function SumLen(parts: seq<string>): nat
    decreases |parts|
  {
    if |parts| == 0 then 0 else |parts[0]| + SumLen(parts[1..])
  }

  /** No piece produced by `Split` contains the separator. */
  lemma {:induction false} SplitPiecesLackSeparator(s: string, sep: char)
    ensures forall p :: p in Split(s, sep) ==> sep !in p
    decreases |s|
  {
    if |s| > 0 {
      SplitPiecesLackSeparator(s[1..], sep);
      var rest := Split(s[1..], sep);
      if s[0] != sep {
        assert sep !in [s[0]] + rest[0] by { assert rest[0] in rest; }
        forall p | p in Split(s, sep) ensures sep !in p {
          if p != [s[0]] + rest[0] {
            assert p in rest[1..];
          }
        }
      }
    }
  }

  /** Joining the pieces with the separator gives the string back. */
  lemma {:induction false} JoinSplit(s: string, sep: char)
    ensures Join(Split(s, sep), [sep]) == s
    decreases |s|
  {
    if |s| > 0 {
      JoinSplit(s[1..], sep);
      var rest := Split(s[1..], sep);
      if s[0] == sep {
        assert Split(s, sep) == [""] + rest;
        assert Join([""] + rest, [sep]) == "" + [sep] + Join(rest, [sep]) by {
          assert ([""] + rest)[1..] == rest;
        }
        assert s == [sep] + s[1..];
      } else {
        var parts := Split(s, sep);
        assert parts == [[s[0]] + rest[0]] + rest[1..];
        if |rest| == 1 {
          assert parts == [[s[0]] + rest[0]];
          assert s == [s[0]] + s[1..];
        } else {
          assert Join(rest, [sep]) == rest[0] + [sep] + Join(rest[1..], [sep]);
          assert parts[1..] == rest[1..];
          assert Join(parts, [sep]) == [s[0]] + rest[0] + [sep] + Join(rest[1..], [sep]);
          assert s == [s[0]] + s[1..];
        }
      }
    }
  }

  /** Splitting a join recovers the pieces, provided no piece contains the
      separator. */
  lemma {:induction false} SplitJoin(parts: seq<string>, sep: char)
    requires |parts| >= 1
    requires forall p :: p in parts ==> sep !in p
    ensures Split(Join(parts, [sep]), sep) == parts
    decreases |parts|
  {
    if |parts| == 1 {
      SplitNoSeparator(parts[0], sep);
    } else {
      var tail := parts[1..];
      assert forall p :: p in tail ==> sep !in p by {
        forall p | p in tail ensures p in parts { assert p == parts[1 + IndexIn(tail, p)]; }
      }
      SplitJoin(tail, sep);
      assert parts[0] in parts;
      SplitPrefix(parts[0], [sep] + Join(tail, [sep]), sep);
      SplitLeadingSeparator(Join(tail, [sep]), sep);
      var after := Split([sep] + Join(tail, [sep]), sep);
      assert after == [""] + tail;
      assert after[0] == "" && after[1..] == tail;
      assert parts[0] + after[0] == parts[0];
      assert Join(parts, [sep]) == parts[0] + ([sep] + Join(tail, [sep]));
      assert parts == [parts[0]] + tail;
    }
  }

  function IndexIn<T(==)>(s: seq<T>, x: T): (i: nat)
    requires x in s
    ensures i < |s| && s[i] == x
  {
    if s[0] == x then 0 else 1 + IndexIn(s[1..], x)
  }

  lemma {:induction false} SplitNoSeparator(s: string, sep: char)
    requires sep !in s
    ensures Split(s, sep) == [s]
    decreases |s|
  {
    if |s| > 0 {
      assert sep !in s[1..];
      SplitNoSeparator(s[1..], sep);
      assert s == [s[0]] + s[1..];
    }
  }

  lemma SplitLeadingSeparator(t: string, sep: char)
    ensures Split([sep] + t, sep) == [""] + Split(t, sep)
  {
    assert ([sep] + t)[1..] == t;
  }

  /** `flatMap`: the results of `f` on each element, concatenated in
      order. */
  function FlatMap<T, U>(s: seq<T>, f: T -> seq<U>): seq<U>
    decreases |s|
  {
    if |s| == 0 then [] else f(s[0]) + FlatMap(s[1..], f)
  }

  /** `flatMap` distributes over concatenation. */
  lemma {:induction false} FlatMapAppend<T, U>(a: seq<T>, b: seq<T>, f: T -> seq<U>)
    ensures FlatMap(a + b, f) == FlatMap(a, f) + FlatMap(b, f)
    decreases |a|
  {
    if |a| > 0 {
      FlatMapAppend(a[1..], b, f);
      assert (a + b)[0] == a[0];
      assert (a + b)[1..] == a[1..] + b;
      ConcatAssociative(f(a[0]), FlatMap(a[1..], f), FlatMap(b, f));
    } else {
      assert a + b == b;
    }
  }

  /** Concatenation is associative. */
  lemma ConcatAssociative<T>(x: seq<T>, y: seq<T>, z: seq<T>)
    ensures x + (y + z) == x + y + z
  {
  }

  /** A character other than the separator glues onto the first piece. */
  lemma SplitCons(c: char, t: string, sep: char)
    requires c != sep
    ensures Split([c] + t, sep) == [[c] + Split(t, sep)[0]] + Split(t, sep)[1..]
  {
    assert ([c] + t)[1..] == t;
  }

  /** A prefix free of the separator glues onto the first piece. */
  lemma {:induction false} SplitPrefix(p: string, t: string, sep: char)
    requires sep !in p
    ensures Split(p + t, sep) == [p + Split(t, sep)[0]] + Split(t, sep)[1..]
    decreases |p|
  {
    if |p| > 0 {
      assert sep !in p[1..];
      SplitPrefix(p[1..], t, sep);
      SplitPrefixStep(p, t, sep);
    } else {
      var sp := Split(t, sep);
      assert p + t == t;
      assert p + sp[0] == sp[0];
      assert sp == [sp[0]] + sp[1..];
    }
  }

  /** One step of `SplitPrefix`: from the prefix without its first character
      to the whole prefix. */
  lemma SplitPrefixStep(p: string, t: string, sep: char)
    requires |p| > 0 && p[0] != sep
    requires Split(p[1..] + t, sep) == [p[1..] + Split(t, sep)[0]] + Split(t, sep)[1..]
    ensures Split(p + t, sep) == [p + Split(t, sep)[0]] + Split(t, sep)[1..]
  {
    var sp := Split(t, sep);
    var q := p[1..] + t;
    var inner := Split(q, sep);
    var head := [p[0]] + inner[0];
    assert Split(p + t, sep) == [head] + inner[1..] by {
      assert [p[0]] + p[1..] == p;
      ConcatAssociative([p[0]], p[1..], t);
      SplitCons(p[0], q, sep);
    }
    assert head == p + sp[0] by {
      assert inner[0] == p[1..] + sp[0];
      ConcatAssociative([p[0]], p[1..], sp[0]);
      assert [p[0]] + p[1..] == p;
    }
    assert inner[1..] == sp[1..];
  }

  /** There is one more piece than there are separators, and the pieces hold
      every other character. */
  lemma {:induction false} SplitCounts(s: string, sep: char)
    ensures |Split(s, sep)| == multiset(s)[sep] + 1
    ensures SumLen(Split(s, sep)) == |s| - multiset(s)[sep]
    decreases |s|
  {
    if |s| > 0 {
      SplitCounts(s[1..], sep);
      assert s == [s[0]] + s[1..];
      assert multiset(s) == multiset{s[0]} + multiset(s[1..]);
      var rest := Split(s[1..], sep);
      if s[0] == sep {
        assert ([""] + rest)[1..] == rest;
      } else {
        var parts := [[s[0]] + rest[0]] + rest[1..];
        assert parts[1..] == rest[1..];
        assert SumLen(rest) == |rest[0]| + SumLen(rest[1..]);
      }
    }
  }

  /** Joining with the empty string concatenates. */
  lemma {:induction false} JoinEmptyLength(parts: seq<string>)
    ensures |Join(parts, "")| == SumLen(parts)
    decreases |parts|
  {
    if |parts| > 1 {
      JoinEmptyLength(parts[1..]);
      assert SumLen(parts[1..]) == |parts[1]| + SumLen(parts[2..]);
      assert parts[1..][1..] == parts[2..];
    }
  }

  /* ---------- repeat ---------- */

  /** `s.repeat(n)` for a count that is not negative. */
  function RepeatString(s: string, n: nat): (r: string)
    ensures |r| == |s| * n
    ensures forall c :: c in r ==> c in s
  {
    if n == 0 then "" else RepeatString(s, n - 1) + s
  }

  /** Character `i` of a repetition is character `i mod |s|` of `s`. */
  lemma {:induction false} RepeatStringAt(s: string, n: nat)
    ensures forall i :: 0 <= i < |RepeatString(s, n)| ==> RepeatString(s, n)[i] == s[i % |s|]
    decreases n
  {
    if n > 0 {
      RepeatStringAt(s, n - 1);
      var p := RepeatString(s, n - 1);
      forall i | 0 <= i < |p + s| ensures (p + s)[i] == s[i % |s|] {
        if i >= |p| {
          DivModUnique(i, |s|, n - 1, i - |p|);
        }
      }
    }
  }

  lemma {:induction false} MulAtLeast(a: nat, m: nat)
    requires a >= 1
    ensures a * m >= m
    decreases a
  {
    if a > 1 {
      MulAtLeast(a - 1, m);
      assert a * m == (a - 1) * m + m;
    }
  }

  /** The remainder of `x` by `m` is the `r` of any `x == q * m + r` with
      `0 <= r < m`. */
  lemma DivModUnique(x: int, m: int, q: int, r: int)
    requires m > 0 && 0 <= r < m && x == q * m + r
    ensures x % m == r
  {
    var q', r' := x / m, x % m;
    assert x == q' * m + r';
    assert (q - q') * m == r' - r;
    if q - q' >= 1 {
      MulAtLeast(q - q', m);
    } else if q' - q >= 1 {
      MulAtLeast(q' - q, m);
    }
  }

  /** Repeating a single character gives a run of that character. */
  lemma {:induction false} RepeatChar(c: char, n: nat)
    ensures RepeatString([c], n) == seq(n, _ => c)
  {
    if n > 0 {
      RepeatChar(c, n - 1);
    }
  }

  /* ---------- ASCII case mapping ---------- */

  predicate IsAsciiUpper(c: char) { 'A' <= c <= 'Z' }

  predicate IsAsciiLower(c: char) { 'a' <= c <= 'z' }

  function ToLowerChar(c: char): (d: char)
    ensures !IsAsciiUpper(d)
    ensures !IsAsciiUpper(c) ==> d == c
  {
    if IsAsciiUpper(c) then (c as int + 32) as char else c
  }

  function ToUpperChar(c: char): (d: char)
    ensures !IsAsciiLower(d)
    ensures !IsAsciiLower(c) ==> d == c
  {
    if IsAsciiLower(c) then (c as int - 32) as char else c
  }

  /** `s.toLowerCase()` on the ASCII letters. */
  function ToLower(s: string): (r: string)
    ensures |r| == |s|
    ensures forall i :: 0 <= i < |s| ==> r[i] == ToLowerChar(s[i])
  {
    seq(|s|, i requires 0 <= i < |s| => ToLowerChar(s[i]))
  }

  /** `s.toUpperCase()` on the ASCII letters. */
  function ToUpper(s: string): (r: string)
    ensures |r| == |s|
    ensures forall i :: 0 <= i < |s| ==> r[i] == ToUpperChar(s[i])
  {
    seq(|s|, i requires 0 <= i < |s| => ToUpperChar(s[i]))
  }

  /* ---------- numbers as text ---------- */

  function DigitChar(d: nat): (c: char)
    requires d < 10
    ensures '0' <= c <= '9'
  {
    ('0' as int + d) as char
  }

  /** Decimal digits of a natural number, without leading zeros. */
  function NatToString(n: nat): (s: string)
    ensures |s| >= 1
    ensures forall i :: 0 <= i < |s| ==> '0' <= s[i] <= '9'
    decreases n
  {
    if n < 10 then [DigitChar(n)] else NatToString(n / 10) + [DigitChar(n % 10)]
  }

  /** `String(n)` for an integer. */
  function IntToString(n: int): string {
    if n < 0 then "-" + NatToString(-n) else NatToString(n)
  }

  /* ---------- the default sort order on strings ---------- */

  /** Lexicographic order on character codes, as the default comparator of
      `Array.prototype.sort` orders strings. */
  predicate LexLe(a: string, b: string)
    decreases |a|
  {
    |a| == 0 || (|b| > 0 && (a[0] < b[0] || (a[0] == b[0] && LexLe(a[1..], b[1..]))))
  }

  lemma LexLeReflexive(a: string)
    ensures LexLe(a, a)
    decreases |a|
  {
    if |a| > 0 { LexLeReflexive(a[1..]); }
  }

  lemma LexLeTotal(a: string, b: string)
    ensures LexLe(a, b) || LexLe(b, a)
    decreases |a|
  {
    if |a| > 0 && |b| > 0 && a[0] == b[0] {
      LexLeTotal(a[1..], b[1..]);
    }
  }

  lemma LexLeAntisymmetric(a: string, b: string)
    requires LexLe(a, b) && LexLe(b, a)
    ensures a == b
    decreases |a|
  {
    if |a| > 0 {
      LexLeAntisymmetric(a[1..], b[1..]);
      assert a == [a[0]] + a[1..] && b == [b[0]] + b[1..];
    }
  }

  lemma LexLeTransitive(a: string, b: string, c: string)
    requires LexLe(a, b) && LexLe(b, c)
    ensures LexLe(a, c)
    decreases |a|
  {
    if |a| > 0 && a[0] == b[0] && b[0] == c[0] {
      LexLeTransitive(a[1..], b[1..], c[1..]);
    }
  }

  predicate Sorted(s: seq<string>) {
    forall i, j :: 0 <= i < j < |s| ==> LexLe(s[i], s[j])
  }

  /** Inserts `x` into a sorted list before the first element it precedes. */
  function Insert(x: string, s: seq<string>): (r: seq<string>)
    requires Sorted(s)
    ensures Sorted(r)
    ensures multiset(r) == multiset(s) + multiset{x}
    decreases |s|
  {
    if |s| == 0 then [x]
    else if LexLe(x, s[0]) then
      assert forall j :: 0 <= j < |s| ==> LexLe(x, s[j]) by {
        forall j | 0 <= j < |s| ensures LexLe(x, s[j]) {
          if j > 0 { LexLeTransitive(x, s[0], s[j]); }
        }
      }
      [x] + s
    else
      LexLeTotal(x, s[0]);
      var t := Insert(x, s[1..]);
      assert s == [s[0]] + s[1..];
      assert forall j :: 0 <= j < |t| ==> LexLe(s[0], t[j]) by {
        forall j | 0 <= j < |t| ensures LexLe(s[0], t[j]) {
          assert t[j] in multiset(t);
          assert t[j] == x || t[j] in multiset(s[1..]);
          if t[j] != x {
            var k := IndexIn(s[1..], t[j]);
            assert s[1 + k] == t[j];
          }
        }
      }
      [s[0]] + t
  }

  /** Insertion sort under `LexLe`. */
  function Sort(s: seq<string>): (r: seq<string>)
    ensures Sorted(r)
    ensures multiset(r) == multiset(s)
    decreases |s|
  {
    if |s| == 0 then []
    else
      assert s == [s[0]] + s[1..];
      Insert(s[0], Sort(s[1..]))
  }

  /** A sorted list is determined by its elements: two sorted lists holding
      the same elements are equal. */
  lemma {:induction false} SortedUnique(x: seq<string>, y: seq<string>)
    requires Sorted(x) && Sorted(y)
    requires multiset(x) == multiset(y)
    ensures x == y
    decreases |x|
  {
    assert |x| == |multiset(x)| == |multiset(y)| == |y|;
    if |x| > 0 {
      assert x[0] in multiset(y);
      assert y[0] in multiset(x);
      var i := IndexIn(y, x[0]);
      var j := IndexIn(x, y[0]);
      LexLeReflexive(x[0]);
      assert LexLe(y[0], x[0]) by { if i > 0 { assert LexLe(y[0], y[i]); } }
      assert LexLe(x[0], y[0]) by { if j > 0 { assert LexLe(x[0], x[j]); } }
      LexLeAntisymmetric(x[0], y[0]);
      assert x == [x[0]] + x[1..] && y == [y[0]] + y[1..];
      assert multiset(x) == multiset{x[0]} + multiset(x[1..]);
      assert multiset(y) == multiset{y[0]} + multiset(y[1..]);
      assert multiset(x[1..]) == multiset(x) - multiset{x[0]};
      assert multiset(y[1..]) == multiset(y) - multiset{y[0]};
      SortedUnique(x[1..], y[1..]);
    }
  }

  /** Sorting two lists gives the same list exactly when they hold the same
      elements. */
  lemma SortEqualIff(a: seq<string>, b: seq<string>)
    ensures Sort(a) == Sort(b) <==> multiset(a) == multiset(b)
  {
    if multiset(a) == multiset(b) {
      SortedUnique(Sort(a), Sort(b));
    }
  }
}
