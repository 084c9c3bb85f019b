/** Record combinators. Each builds a fresh record by property assignment in
    a loop over the input and passes every key it writes (or deletes) through
    `AssertSafeKey` first, so a prototype-polluting key aborts the whole call;
    plus structural equality and the key test. */
module Objects {
  import opened Wrappers
  import opened Builtins
  import opened Values
  import opened Checks

  /* ---------- assignment onto a fresh record ---------- */

  /** The record obtained by assigning the writes `w`, in order, onto `{}`. */
  function Assigned(w: Entries): (r: Entries)
    decreases |w|
  {
    if |w| == 0 then [] else Set(Assigned(w[..|w| - 1]), w[|w| - 1].0, w[|w| - 1].1)
  }

  lemma AssignedStep(w: Entries, i: nat)
    requires i < |w|
    ensures Assigned(w[..i + 1]) == Set(Assigned(w[..i]), w[i].0, w[i].1)
  {
    assert w[..i + 1][..i] == w[..i];
  }

  /** Every write is safe. */
  predicate AllSafe(w: Entries) {
    forall i :: 0 <= i < |w| ==> !IsUnsafeKey(w[i].0)
  }

  /** The keys of the assigned record are exactly the written keys, each
      once. */
  lemma {:induction false} AssignedKeys(w: Entries)
    ensures DistinctKeys(Assigned(w))
    ensures forall k :: k in KeysOf(Assigned(w)) <==> k in KeysOf(w)
    decreases |w|
  {
    if |w| > 0 {
      var init, last := w[..|w| - 1], w[|w| - 1];
      AssignedKeys(init);
      SetDistinct(Assigned(init), last.0, last.1);
      assert KeysOf(w) == KeysOf(init) + [last.0];
      if last.0 in KeysOf(Assigned(init)) {
        SetExisting(Assigned(init), last.0, last.1);
      } else {
        SetNew(Assigned(init), last.0, last.1);
        assert KeysOf(Assigned(init) + [last]) == KeysOf(Assigned(init)) + [last.0];
      }
    }
  }

  /** The value read under a written key is that of the last write to it. */
  lemma {:induction false} AssignedLastWins(w: Entries, i: nat)
    requires i < |w|
    requires forall j :: i < j < |w| ==> w[j].0 != w[i].0
    ensures Get(Assigned(w), w[i].0) == w[i].1
    decreases |w|
  {
    var init, last := w[..|w| - 1], w[|w| - 1];
    GetSet(Assigned(init), last.0, last.1, w[i].0);
    if i < |w| - 1 {
      AssignedLastWins(init, i);
    }
  }

  /** A key never written reads as undefined. */
  lemma AssignedUnwritten(w: Entries, k: string)
    requires k !in KeysOf(w)
    ensures Get(Assigned(w), k) == Undefined
  {
    AssignedKeys(w);
  }

  /** Writes to distinct keys simply append, in order. */
  lemma {:induction false} AssignedDistinctWrites(w: Entries)
    requires DistinctKeys(w)
    ensures Assigned(w) == w
    decreases |w|
  {
    if |w| > 0 {
      var init, last := w[..|w| - 1], w[|w| - 1];
      assert DistinctKeys(init);
      AssignedDistinctWrites(init);
      assert last.0 !in KeysOf(init) by {
        forall j | 0 <= j < |init| ensures KeysOf(init)[j] != last.0 {
          assert w[j].0 != w[|w| - 1].0;
        }
      }
      SetNew(init, last.0, last.1);
      assert w == init + [last];
    }
  }

  /* ---------- filterValues, pickBy, omitBy ---------- */

  /** The entries for which `keep` holds, in their original order. */
  function Kept(o: Entries, keep: (string, Value) -> bool): Entries
    decreases |o|
  {
    if |o| == 0 then []
    else Kept(o[..|o| - 1], keep) + (if keep(o[|o| - 1].0, o[|o| - 1].1) then [o[|o| - 1]] else [])
  }

  /** The kept entries are exactly the entries that pass the test. */
  lemma {:induction false} KeptMembers(o: Entries, keep: (string, Value) -> bool)
    ensures forall e :: e in Kept(o, keep) <==> e in o && keep(e.0, e.1)
    decreases |o|
  {
    if |o| > 0 {
      var init, last := o[..|o| - 1], o[|o| - 1];
      KeptMembers(init, keep);
      assert o == init + [last];
    }
  }

  lemma KeptStep(o: Entries, keep: (string, Value) -> bool, i: nat)
    requires i < |o|
    ensures Kept(o[..i + 1], keep) ==
            Kept(o[..i], keep) + (if keep(o[i].0, o[i].1) then [o[i]] else [])
  {
    assert o[..i + 1][..i] == o[..i];
  }

  /** A sub-list of an object is an object. */
  lemma {:induction false} KeptDistinct(o: Entries, keep: (string, Value) -> bool)
    requires DistinctKeys(o)
    ensures DistinctKeys(Kept(o, keep))
    decreases |o|
  {
    if |o| > 0 {
      var init, last := o[..|o| - 1], o[|o| - 1];
      assert DistinctKeys(init);
      KeptDistinct(init, keep);
      KeptMembers(init, keep);
      var r := Kept(init, keep);
      forall e | e in r ensures e.0 != last.0 {
        var j :| 0 <= j < |init| && init[j] == e;
        assert o[j].0 != o[|o| - 1].0;
      }
    }
  }

  /** `keep` with its arguments taken value first, as `filterValues` calls
      its predicate. */
  function ByValue(pred: (Value, string) -> bool): (keep: (string, Value) -> bool)
    ensures forall k, v :: keep(k, v) == pred(v, k)
  {
    (k: string, v: Value) => pred(v, k)
  }

  /** The complement of a predicate, as `omitBy` keeps what fails it. */
  function Negate(pred: (string, Value) -> bool): (keep: (string, Value) -> bool)
    ensures forall k, v :: keep(k, v) == !pred(k, v)
  {
    (k: string, v: Value) => !pred(k, v)
  }

  /** Whether any entry kept by `keep` carries an unsafe key. */
  predicate WritesUnsafe(o: Entries, keep: (string, Value) -> bool) {
    exists i :: 0 <= i < |o| && keep(o[i].0, o[i].1) && IsUnsafeKey(o[i].0)
  }

  /** The loop shared by `filterValues`, `pickBy` and `omitBy`: copy the
      entries `keep` accepts, checking each key before it is written. */
  method CopyKept(o: Entries, keep: (string, Value) -> bool) returns (r: Result<Entries, Error>)
    requires DistinctKeys(o)
    ensures r.Failure? <==> WritesUnsafe(o, keep)
    ensures r.Failure? ==> r.error == PrototypePollution
    ensures r.Success? ==> r.value == Kept(o, keep)
  {
    var result: Entries := [];
    var i := 0;
    while i < |o|
      invariant 0 <= i <= |o|
      invariant result == Kept(o[..i], keep)
      invariant forall m :: 0 <= m < i ==> !(keep(o[m].0, o[m].1) && IsUnsafeKey(o[m].0))
    {
      var (key, value) := o[i];
      KeptStep(o, keep, i);
      if keep(key, value) {
        var check := AssertSafeKey(key);
        if check.Failure? {
          assert keep(o[i].0, o[i].1) && IsUnsafeKey(o[i].0);
          return Failure(check.error);
        }
        assert key !in KeysOf(result) by {
          forall j | 0 <= j < |result| ensures KeysOf(result)[j] != key {
            assert result[j] in result;
            KeptMembers(o[..i], keep);
            assert result[j] in o[..i];
            var m :| 0 <= m < i && o[..i][m] == result[j];
            assert o[m].0 != o[i].0;
          }
        }
        SetNew(result, key, value);
        result := Set(result, key, value);
      }
      i := i + 1;
    }
    assert o[..i] == o;
    r := Success(result);
  }

  /** `filterValues(object, predicate)`: the entries whose value satisfies
      the predicate (called as `predicate(value, key)`), values unchanged. */
  method FilterValues(o: Entries, pred: (Value, string) -> bool) returns (r: Result<Entries, Error>)
    requires DistinctKeys(o)
    ensures r.Failure? <==> exists i :: 0 <= i < |o| && pred(o[i].1, o[i].0) && IsUnsafeKey(o[i].0)
    ensures r.Success? ==> forall e :: e in r.value <==> e in o && pred(e.1, e.0)
    ensures r.Success? ==> r.value == Kept(o, ByValue(pred))
  {
    r := CopyKept(o, ByValue(pred));
    KeptMembers(o, ByValue(pred));
  }

  /** `pickBy(object, picker)`: the entries the picker (called as
      `picker(key, value)`) accepts. */
  method PickBy(o: Entries, picker: (string, Value) -> bool) returns (r: Result<Entries, Error>)
    requires DistinctKeys(o)
    ensures r.Failure? <==> exists i :: 0 <= i < |o| && picker(o[i].0, o[i].1) && IsUnsafeKey(o[i].0)
    ensures r.Success? ==> forall e :: e in r.value <==> e in o && picker(e.0, e.1)
    ensures r.Success? ==> r.value == Kept(o, picker)
  {
    r := CopyKept(o, picker);
    KeptMembers(o, picker);
  }

  /** `omitBy(object, predicate)`: the entries the predicate (called as
      `predicate(key, value)`) rejects. */
  method OmitBy(o: Entries, pred: (string, Value) -> bool) returns (r: Result<Entries, Error>)
    requires DistinctKeys(o)
    ensures r.Failure? <==> exists i :: 0 <= i < |o| && !pred(o[i].0, o[i].1) && IsUnsafeKey(o[i].0)
    ensures r.Success? ==> forall e :: e in r.value <==> e in o && !pred(e.0, e.1)
    ensures r.Success? ==> r.value == Kept(o, Negate(pred))
  {
    r := CopyKept(o, Negate(pred));
    KeptMembers(o, Negate(pred));
  }

  /** `pickBy` and `omitBy` with the same predicate split an object in two:
      every entry lands in exactly one of the results, each result is an
      object, and nothing else appears. */
  lemma {:induction false} PickOmitPartition(o: Entries, pred: (string, Value) -> bool)
    requires DistinctKeys(o)
    ensures multiset(Kept(o, pred)) + multiset(Kept(o, Negate(pred))) == multiset(o)
    ensures DistinctKeys(Kept(o, pred)) && DistinctKeys(Kept(o, Negate(pred)))
    ensures forall e :: e in Kept(o, pred) ==> e !in Kept(o, Negate(pred))
  {
    KeptDistinct(o, pred);
    KeptDistinct(o, Negate(pred));
    KeptMembers(o, pred);
    KeptMembers(o, Negate(pred));
    KeptSplit(o, pred);
  }

  /** Every entry goes to exactly one side of the split. */
  lemma {:induction false} KeptSplit(o: Entries, pred: (string, Value) -> bool)
    ensures multiset(Kept(o, pred)) + multiset(Kept(o, Negate(pred))) == multiset(o)
    decreases |o|
  {
    if |o| > 0 {
      var init, last := o[..|o| - 1], o[|o| - 1];
      KeptSplit(init, pred);
      assert o == init + [last];
      assert multiset(o) == multiset(init) + multiset{last};
      var p, q := Kept(init, pred), Kept(init, Negate(pred));
      if pred(last.0, last.1) {
        assert Kept(o, pred) == p + [last];
        assert Kept(o, Negate(pred)) == q;
      } else {
        assert Kept(o, pred) == p;
        assert Kept(o, Negate(pred)) == q + [last];
      }
    }
  }

  /* ---------- mapValues ---------- */

  /** The entries with each value replaced by `mapper(value, key)`. */
  function MappedValues(o: Entries, mapper: (Value, string) -> Value): (r: Entries)
    ensures KeysOf(r) == KeysOf(o)
  {
    seq(|o|, i requires 0 <= i < |o| => (o[i].0, mapper(o[i].1, o[i].0)))
  }

  /** `mapValues(object, mapper)`: the same keys in the same order, each
      value mapped; fails when any key is unsafe. */
  method MapValues(o: Entries, mapper: (Value, string) -> Value) returns (r: Result<Entries, Error>)
    requires DistinctKeys(o)
    ensures r.Failure? <==> exists i :: 0 <= i < |o| && IsUnsafeKey(o[i].0)
    ensures r.Failure? ==> r.error == PrototypePollution
    ensures r.Success? ==> KeysOf(r.value) == KeysOf(o)
    ensures r.Success? ==> forall i :: 0 <= i < |o| ==> Get(r.value, o[i].0) == mapper(o[i].1, o[i].0)
  {
    ghost var w := MappedValues(o, mapper);
    var result: Entries := [];
    var i := 0;
    while i < |o|
      invariant 0 <= i <= |o|
      invariant result == Assigned(w[..i])
      invariant AllSafe(w[..i])
    {
      var (key, value) := o[i];
      var check := AssertSafeKey(key);
      if check.Failure? {
        return Failure(check.error);
      }
      AssignedStep(w, i);
      result := Set(result, key, mapper(value, key));
      i := i + 1;
    }
    assert w[..i] == w;
    assert DistinctKeys(w) by {
      forall a, b | 0 <= a < b < |w| ensures w[a].0 != w[b].0 {
        assert w[a].0 == o[a].0 && w[b].0 == o[b].0;
      }
    }
    AssignedDistinctWrites(w);
    forall j | 0 <= j < |o| ensures Get(result, o[j].0) == mapper(o[j].1, o[j].0) {
      GetStored(w, j);
    }
    r := Success(result);
  }

  /* ---------- mapKeys and invert ---------- */

  /** The writes `mapKeys` performs: each value under its new key. */
  function RenameWrites(o: Entries, mapper: (string, Value) -> string): (w: Entries)
  {
    seq(|o|, i requires 0 <= i < |o| => (mapper(o[i].0, o[i].1), o[i].1))
  }

  /** What a record built from the writes `w` holds: exactly the written
      keys, each once, and under each the value of the last write to it. */
  ghost predicate BuiltFrom(r: Entries, w: Entries) {
    && DistinctKeys(r)
    && (forall k :: k in KeysOf(r) <==> k in KeysOf(w))
    && (forall i :: 0 <= i < |w| && (forall j :: i < j < |w| ==> w[j].0 != w[i].0) ==>
          Get(r, w[i].0) == w[i].1)
  }

  lemma AssignedBuiltFrom(w: Entries)
    ensures BuiltFrom(Assigned(w), w)
  {
    AssignedKeys(w);
    forall i | 0 <= i < |w| && (forall j :: i < j < |w| ==> w[j].0 != w[i].0)
      ensures Get(Assigned(w), w[i].0) == w[i].1
    {
      AssignedLastWins(w, i);
    }
  }

  /** The loop shared by `mapKeys`, `invert`, `pick` and `mergeWith`: assign
      the writes in order onto `{}`, checking each key before it is written. */
  method AssignAll(w: Entries) returns (r: Result<Entries, Error>)
    ensures r.Failure? <==> !AllSafe(w)
    ensures r.Failure? ==> r.error == PrototypePollution
    ensures r.Success? ==> r.value == Assigned(w)
  {
    var result: Entries := [];
    var i := 0;
    while i < |w|
      invariant 0 <= i <= |w|
      invariant result == Assigned(w[..i])
      invariant AllSafe(w[..i])
    {
      var (key, value) := w[i];
      var check := AssertSafeKey(key);
      if check.Failure? {
        return Failure(check.error);
      }
      AssignedStep(w, i);
      result := Set(result, key, value);
      i := i + 1;
    }
    assert w[..i] == w;
    r := Success(result);
  }

  /** `mapKeys(object, mapper)`: each value under the key `mapper(key,
      value)`; when two entries map to the same key the later one wins. */
  method MapKeys(o: Entries, mapper: (string, Value) -> string) returns (r: Result<Entries, Error>)
    ensures r.Failure? <==> exists i :: 0 <= i < |o| && IsUnsafeKey(mapper(o[i].0, o[i].1))
    ensures r.Failure? ==> r.error == PrototypePollution
    ensures r.Success? ==> BuiltFrom(r.value, RenameWrites(o, mapper))
  {
    var w := RenameWrites(o, mapper);
    assert |w| == |o| && forall i :: 0 <= i < |o| ==> w[i].0 == mapper(o[i].0, o[i].1);
    r := AssignAll(w);
    if r.Success? {
      AssignedBuiltFrom(w);
    }
  }

  /** The writes `invert` performs: each key, as a string, under its value's
      text. */
  function InvertWrites(o: Entries): (w: Entries)
  {
    seq(|o|, i requires 0 <= i < |o| => (ToText(o[i].1), Str(o[i].0)))
  }

  /** `invert(object)`: maps `String(value)` to key; when two values print
      the same, the later entry wins. */
  method Invert(o: Entries) returns (r: Result<Entries, Error>)
    ensures r.Failure? <==> exists i :: 0 <= i < |o| && IsUnsafeKey(ToText(o[i].1))
    ensures r.Failure? ==> r.error == PrototypePollution
    ensures r.Success? ==> BuiltFrom(r.value, InvertWrites(o))
  {
    var w := InvertWrites(o);
    assert |w| == |o| && forall i :: 0 <= i < |o| ==> w[i].0 == ToText(o[i].1);
    r := AssignAll(w);
    if r.Success? {
      AssignedBuiltFrom(w);
    }
  }

  /** Inverting an object whose values print distinctly loses nothing:
      every entry `k: v` becomes `String(v): k`. */
  lemma InvertInjective(o: Entries)
    requires forall i, j :: 0 <= i < j < |o| ==> ToText(o[i].1) != ToText(o[j].1)
    ensures forall i :: 0 <= i < |o| ==> Get(Assigned(InvertWrites(o)), ToText(o[i].1)) == Str(o[i].0)
  {
    var w := InvertWrites(o);
    forall i | 0 <= i < |o| ensures Get(Assigned(w), ToText(o[i].1)) == Str(o[i].0) {
      AssignedLastWins(w, i);
    }
  }

  /* ---------- pick and omit ---------- */

  /** The writes `pick` performs: each listed key with the object's value
      for it (undefined when absent). */
  function PickWrites(o: Entries, keys: seq<string>): (w: Entries)
  {
    seq(|keys|, i requires 0 <= i < |keys| => (keys[i], Get(o, keys[i])))
  }

  /** `pick(object, keys)`: exactly the listed keys, each mapped to
      `object[key]`; fails when a listed key is unsafe. */
  method Pick(o: Entries, keys: seq<string>) returns (r: Result<Entries, Error>)
    ensures r.Failure? <==> exists i :: 0 <= i < |keys| && IsUnsafeKey(keys[i])
    ensures r.Failure? ==> r.error == PrototypePollution
    ensures r.Success? ==> DistinctKeys(r.value)
    ensures r.Success? ==> forall k :: k in KeysOf(r.value) <==> k in keys
    ensures r.Success? ==> forall k :: k in keys ==> Get(r.value, k) == Get(o, k)
  {
    var w := PickWrites(o, keys);
    assert |w| == |keys| && forall i :: 0 <= i < |keys| ==> w[i] == (keys[i], Get(o, keys[i]));
    r := AssignAll(w);
    if r.Success? {
      AssignedBuiltFrom(w);
      assert forall k :: k in KeysOf(w) <==> k in keys by {
        forall k ensures k in KeysOf(w) <==> k in keys {
          if k in keys {
            var i :| 0 <= i < |keys| && keys[i] == k;
            assert KeysOf(w)[i] == k;
          }
        }
      }
      forall k | k in keys ensures Get(r.value, k) == Get(o, k) {
        var i := LastIndexOf(keys, k);
        AssignedLastWins(w, i);
      }
    }
  }

  /** The position of the last occurrence of `x`. */
  function LastIndexOf(s: seq<string>, x: string): (i: nat)
    requires x in s
    ensures i < |s| && s[i] == x
    ensures forall j :: i < j < |s| ==> s[j] != x
  {
    if s[|s| - 1] == x then |s| - 1
    else
      assert x in s[..|s| - 1] by {
        var j :| 0 <= j < |s| && s[j] == x;
        assert s[..|s| - 1][j] == x;
      }
      LastIndexOf(s[..|s| - 1], x)
  }

  /** Keeps the entries whose key is not listed. */
  function KeyNotIn(keys: seq<string>): (keep: (string, Value) -> bool)
    ensures forall k, v :: keep(k, v) == (k !in keys)
  {
    (k: string, v: Value) => k !in keys
  }

  lemma {:induction false} DeleteKept(o: Entries, keys: seq<string>, k: string)
    ensures Delete(Kept(o, KeyNotIn(keys)), k) == Kept(o, KeyNotIn(keys + [k]))
    decreases |o|
  {
    if |o| > 0 {
      var init, last := o[..|o| - 1], o[|o| - 1];
      DeleteKept(init, keys, k);
      var a := Kept(init, KeyNotIn(keys));
      if last.0 !in keys {
        assert Kept(o, KeyNotIn(keys)) == a + [last];
        assert (a + [last])[..|a + [last]| - 1] == a;
      } else {
        assert Kept(o, KeyNotIn(keys)) == a;
      }
    }
  }

  /** `omit(object, keys)`: a copy lacking exactly the listed keys, every
      other entry unchanged and in place; fails when a listed key is unsafe,
      whether or not the object has it. */
  method Omit(o: Entries, keys: seq<string>) returns (r: Result<Entries, Error>)
    ensures r.Failure? <==> exists i :: 0 <= i < |keys| && IsUnsafeKey(keys[i])
    ensures r.Failure? ==> r.error == PrototypePollution
    ensures r.Success? ==> forall e :: e in r.value <==> e in o && e.0 !in keys
    ensures r.Success? ==> r.value == Kept(o, KeyNotIn(keys))
  {
    var result := o;
    OmitNone(o, keys);
    var i := 0;
    while i < |keys|
      invariant 0 <= i <= |keys|
      invariant result == Kept(o, KeyNotIn(keys[..i]))
      invariant forall j :: 0 <= j < i ==> !IsUnsafeKey(keys[j])
    {
      var check := AssertSafeKey(keys[i]);
      if check.Failure? {
        assert IsUnsafeKey(keys[i]);
        return Failure(check.error);
      }
      OmitStep(o, keys, i);
      result := Delete(result, keys[i]);
      i := i + 1;
    }
    assert keys[..i] == keys;
    KeptNotIn(o, keys);
    r := Success(result);
  }

  /** Before any key is removed, the copy is the whole object. */
  lemma OmitNone(o: Entries, keys: seq<string>)
    ensures Kept(o, KeyNotIn(keys[..0])) == o
  {
    assert keys[..0] == [];
    KeptAll(o, KeyNotIn(keys[..0]));
  }

  /** Deleting the next listed key removes one more key from the copy. */
  lemma OmitStep(o: Entries, keys: seq<string>, i: nat)
    requires i < |keys|
    ensures Delete(Kept(o, KeyNotIn(keys[..i])), keys[i]) == Kept(o, KeyNotIn(keys[..i + 1]))
  {
    DeleteKept(o, keys[..i], keys[i]);
    assert keys[..i] + [keys[i]] == keys[..i + 1];
  }

  /** The copy holds exactly the entries whose key is not listed. */
  lemma KeptNotIn(o: Entries, keys: seq<string>)
    ensures forall e :: e in Kept(o, KeyNotIn(keys)) <==> e in o && e.0 !in keys
  {
    KeptMembers(o, KeyNotIn(keys));
    forall e ensures e in Kept(o, KeyNotIn(keys)) <==> e in o && e.0 !in keys {
      assert KeyNotIn(keys)(e.0, e.1) == (e.0 !in keys);
    }
  }

  lemma {:induction false} KeptAll(o: Entries, keep: (string, Value) -> bool)
    requires forall k, v :: keep(k, v)
    ensures Kept(o, keep) == o
    decreases |o|
  {
    if |o| > 0 {
      KeptAll(o[..|o| - 1], keep);
      assert o == o[..|o| - 1] + [o[|o| - 1]];
    }
  }

  /* ---------- mergeWith ---------- */

  /** `uniq` (from a helper file that is not part of this model):
      order-preserving removal of repeats, keeping first occurrences. */
  function Uniq(s: seq<string>): (r: seq<string>)
    ensures forall x :: x in r <==> x in s
    ensures forall i, j :: 0 <= i < j < |r| ==> r[i] != r[j]
    decreases |s|
  {
    if |s| == 0 then []
    else
      var u := Uniq(s[..|s| - 1]);
      assert forall x :: x in s <==> x in s[..|s| - 1] || x == s[|s| - 1] by {
        assert s == s[..|s| - 1] + [s[|s| - 1]];
      }
      if s[|s| - 1] in u then u else u + [s[|s| - 1]]
  }

  /** The position of the first occurrence of `x`. */
  function FirstIndex(s: seq<string>, x: string): (i: nat)
    requires x in s
    ensures i < |s| && s[i] == x
    ensures forall j :: 0 <= j < i ==> s[j] != x
    decreases |s|
  {
    if s[0] == x then 0 else 1 + FirstIndex(s[1..], x)
  }

  lemma {:induction false} FirstIndexAppend(s: seq<string>, t: seq<string>, x: string)
    requires x in s
    ensures FirstIndex(s + t, x) == FirstIndex(s, x)
    decreases |s|
  {
    if s[0] != x {
      assert (s + t)[1..] == s[1..] + t;
      FirstIndexAppend(s[1..], t, x);
    }
  }

  lemma {:induction false} FirstIndexNew(s: seq<string>, x: string)
    requires x !in s
    ensures FirstIndex(s + [x], x) == |s|
    decreases |s|
  {
    if |s| > 0 {
      assert (s + [x])[1..] == s[1..] + [x];
      FirstIndexNew(s[1..], x);
    }
  }

  /** `uniq` keeps first occurrences in order: the kept keys appear in the
      order in which each first occurs in the input. */
  lemma {:induction false} UniqFirstOrder(s: seq<string>)
    ensures forall i, j :: 0 <= i < j < |Uniq(s)| ==> FirstIndex(s, Uniq(s)[i]) < FirstIndex(s, Uniq(s)[j])
    decreases |s|
  {
    if |s| > 0 {
      var init, last := s[..|s| - 1], s[|s| - 1];
      var u := Uniq(init);
      UniqFirstOrder(init);
      assert s == init + [last];
      forall x | x in u ensures FirstIndex(s, x) == FirstIndex(init, x) < |init| {
        FirstIndexAppend(init, [last], x);
      }
      if last !in u {
        FirstIndexNew(init, last);
        assert Uniq(s) == u + [last];
      } else {
        assert Uniq(s) == u;
      }
    }
  }

  /** The writes `mergeWith` performs: every key of either record, once,
      with the mapper applied to both sides' values (undefined where a side
      lacks the key). */
  function MergeWrites(a: Entries, b: Entries, mapper: (Value, Value) -> Value): (w: Entries)
    ensures KeysOf(w) == Uniq(KeysOf(a) + KeysOf(b))
  {
    var keys := Uniq(KeysOf(a) + KeysOf(b));
    seq(|keys|, i requires 0 <= i < |keys| => (keys[i], mapper(Get(a, keys[i]), Get(b, keys[i]))))
  }

  /** `mergeWith(a, b, mapper)`: the key set is the union of both key sets
      (a's keys first, then b's new ones), and each key holds
      `mapper(a[key], b[key])`. */
  method MergeWith(a: Entries, b: Entries, mapper: (Value, Value) -> Value) returns (r: Result<Entries, Error>)
    ensures r.Failure? <==> exists k :: k in KeysOf(a) + KeysOf(b) && IsUnsafeKey(k)
    ensures r.Failure? ==> r.error == PrototypePollution
    ensures r.Success? ==> KeysOf(r.value) == Uniq(KeysOf(a) + KeysOf(b))
    ensures r.Success? ==> forall k :: k in KeysOf(r.value) <==> k in KeysOf(a) || k in KeysOf(b)
    ensures r.Success? ==> forall k :: k in KeysOf(r.value) ==> Get(r.value, k) == mapper(Get(a, k), Get(b, k))
  {
    var w := MergeWrites(a, b, mapper);
    r := AssignAll(w);
    assert forall i :: 0 <= i < |w| ==> w[i].0 == KeysOf(w)[i];
    assert r.Failure? <==> exists k :: k in KeysOf(a) + KeysOf(b) && IsUnsafeKey(k) by {
      if r.Failure? {
        var i :| 0 <= i < |w| && IsUnsafeKey(w[i].0);
        assert KeysOf(w)[i] in Uniq(KeysOf(a) + KeysOf(b));
      }
      if exists k :: k in KeysOf(a) + KeysOf(b) && IsUnsafeKey(k) {
        var k :| k in KeysOf(a) + KeysOf(b) && IsUnsafeKey(k);
        var i :| 0 <= i < |w| && KeysOf(w)[i] == k;
      }
    }
    if r.Success? {
      assert DistinctKeys(w);
      AssignedDistinctWrites(w);
      forall k | k in KeysOf(r.value) ensures Get(r.value, k) == mapper(Get(a, k), Get(b, k)) {
        var i :| 0 <= i < |w| && KeysOf(w)[i] == k;
        GetStored(w, i);
      }
    }
  }

  /* ---------- hasKey ---------- */

  /** Whether `key` is the canonical decimal name of an index below `n`. */
  predicate IsIndexKey(key: string, n: nat) {
    exists i: nat :: i < n && key == NatToString(i)
  }

  /** `hasKey(key, record)`: the value is an object (not null) and `key in`
      it. For a record that means an own key; for an array an index below
      its length, written in canonical decimal, or `length`. */
  function HasKey(key: string, v: Value): (r: bool)
    ensures v.Rec? ==> (r <==> key in KeysOf(v.entries))
    ensures v.Arr? ==> (r <==> key == "length" || IsIndexKey(key, |v.items|))
    ensures !v.Rec? && !v.Arr? ==> !r
  {
    if v.Rec? then key in KeysOf(v.entries)
    else if v.Arr? then key == "length" || IsIndexKey(key, |v.items|)
    else false
  }

  /* ---------- isEqual ---------- */

  /** `isEqual(a, b)`: identical values are equal; values of different
      `typeof` are not; two arrays are equal when they have the same length
      and are equal position by position; two records are equal when their
      sorted key lists are the same and each key's values are equal; every
      other pair (an array and a record, null and a record, two different
      scalars) is unequal. The per-key comparison runs over a's entries,
      which for an object is the same as running over its sorted keys. */
  function IsEqual(a: Value, b: Value): bool
    decreases a
  {
    if a == b then true
    else if TypeOf(a) != TypeOf(b) then false
    else if a.Arr? && b.Arr? then
      |a.items| == |b.items| && forall i :: 0 <= i < |a.items| ==> IsEqual(a.items[i], b.items[i])
    else if a.Rec? && b.Rec? then
      var keysA := Sort(KeysOf(a.entries));
      var keysB := Sort(KeysOf(b.entries));
      |keysA| == |keysB| && keysA == keysB &&
      forall j :: 0 <= j < |a.entries| ==> IsEqual(a.entries[j].1, Get(b.entries, a.entries[j].0))
    else false
  }

  /** Every value compares equal to itself, and values of different `typeof`
      never compare equal; an array never equals a record. */
  lemma IsEqualBasics(a: Value, b: Value)
    ensures IsEqual(a, a)
    ensures TypeOf(a) != TypeOf(b) ==> !IsEqual(a, b)
    ensures a.Arr? && b.Rec? ==> !IsEqual(a, b) && !IsEqual(b, a)
  {
  }

  /** Two arrays are equal exactly when they have the same length and are
      equal position by position. */
  lemma IsEqualArrays(x: seq<Value>, y: seq<Value>)
    ensures IsEqual(Arr(x), Arr(y)) <==>
              |x| == |y| && forall i :: 0 <= i < |x| ==> IsEqual(x[i], y[i])
  {
    if Arr(x) == Arr(y) {
      forall i | 0 <= i < |x| ensures IsEqual(x[i], y[i]) {
        IsEqualBasics(x[i], y[i]);
      }
    }
  }

  /** The array of the given strings. */
  function Strings(ks: seq<string>): (v: seq<Value>)
    ensures |v| == |ks| && forall i :: 0 <= i < |ks| ==> v[i] == Str(ks[i])
  {
    seq(|ks|, i requires 0 <= i < |ks| => Str(ks[i]))
  }

  /** `isEqual` on two arrays of strings is list equality, which is how the
      sorted key lists are compared above. */
  lemma IsEqualStringArrays(x: seq<string>, y: seq<string>)
    ensures IsEqual(Arr(Strings(x)), Arr(Strings(y))) <==> x == y
  {
    IsEqualArrays(Strings(x), Strings(y));
    if IsEqual(Arr(Strings(x)), Arr(Strings(y))) {
      forall i | 0 <= i < |x| ensures x[i] == y[i] {
        assert IsEqual(Str(x[i]), Str(y[i]));
      }
    }
  }

  /** In a list without repeats every element occurs once. */
  lemma {:induction false} DistinctCount(s: seq<string>, x: string)
    requires forall i, j :: 0 <= i < j < |s| ==> s[i] != s[j]
    ensures multiset(s)[x] == if x in s then 1 else 0
    decreases |s|
  {
    if |s| > 0 {
      var t := s[1..];
      DistinctCount(t, x);
      assert s == [s[0]] + t;
      assert multiset(s) == multiset{s[0]} + multiset(t);
      assert s[0] !in t by {
        forall j | 0 <= j < |t| ensures t[j] != s[0] { assert s[j + 1] != s[0]; }
      }
    }
  }

  lemma KeysDistinct(es: Entries)
    requires DistinctKeys(es)
    ensures forall i, j :: 0 <= i < j < |KeysOf(es)| ==> KeysOf(es)[i] != KeysOf(es)[j]
  {
  }

  /** For two objects, the sorted key lists agree exactly when the key sets
      do. */
  lemma SortedKeysAgree(ea: Entries, eb: Entries)
    requires DistinctKeys(ea) && DistinctKeys(eb)
    ensures Sort(KeysOf(ea)) == Sort(KeysOf(eb)) <==>
              forall k :: k in KeysOf(ea) <==> k in KeysOf(eb)
  {
    var ka, kb := KeysOf(ea), KeysOf(eb);
    SortEqualIff(ka, kb);
    KeysDistinct(ea);
    KeysDistinct(eb);
    if forall k :: k in ka <==> k in kb {
      forall k ensures multiset(ka)[k] == multiset(kb)[k] {
        DistinctCount(ka, k);
        DistinctCount(kb, k);
      }
      assert multiset(ka) == multiset(kb);
    }
    if multiset(ka) == multiset(kb) {
      forall k ensures k in ka <==> k in kb {
        assert k in ka <==> k in multiset(ka);
        assert k in kb <==> k in multiset(kb);
      }
    }
  }

  lemma IsEqualUnfoldRecords(ea: Entries, eb: Entries)
    requires Rec(ea) != Rec(eb)
    ensures IsEqual(Rec(ea), Rec(eb)) ==
              (Sort(KeysOf(ea)) == Sort(KeysOf(eb)) &&
               forall j :: 0 <= j < |ea| ==> IsEqual(ea[j].1, Get(eb, ea[j].0)))
  {
    var a, b := Rec(ea), Rec(eb);
    assert TypeOf(a) == TypeOf(b);
    assert !a.Arr?;
  }

  /** Comparing entry by entry is comparing key by key. */
  lemma EntriesAgreeByKey(ea: Entries, eb: Entries)
    requires DistinctKeys(ea)
    ensures (forall j :: 0 <= j < |ea| ==> IsEqual(ea[j].1, Get(eb, ea[j].0))) <==>
            (forall k :: k in KeysOf(ea) ==> IsEqual(Get(ea, k), Get(eb, k)))
  {
    if forall j :: 0 <= j < |ea| ==> IsEqual(ea[j].1, Get(eb, ea[j].0)) {
      forall k | k in KeysOf(ea) ensures IsEqual(Get(ea, k), Get(eb, k)) {
        var i :| 0 <= i < |ea| && KeysOf(ea)[i] == k;
        GetStored(ea, i);
      }
    }
    if forall k :: k in KeysOf(ea) ==> IsEqual(Get(ea, k), Get(eb, k)) {
      forall j | 0 <= j < |ea| ensures IsEqual(ea[j].1, Get(eb, ea[j].0)) {
        assert KeysOf(ea)[j] == ea[j].0;
        GetStored(ea, j);
      }
    }
  }

  /** Two objects are equal exactly when they have the same keys and, under
      each key, equal values. */
  lemma IsEqualRecords(ea: Entries, eb: Entries)
    requires DistinctKeys(ea) && DistinctKeys(eb)
    ensures IsEqual(Rec(ea), Rec(eb)) <==>
              && (forall k :: k in KeysOf(ea) <==> k in KeysOf(eb))
              && (forall k :: k in KeysOf(ea) ==> IsEqual(Get(ea, k), Get(eb, k)))
  {
    SortedKeysAgree(ea, eb);
    EntriesAgreeByKey(ea, eb);
    if Rec(ea) == Rec(eb) {
      forall k | k in KeysOf(ea) ensures IsEqual(Get(ea, k), Get(eb, k)) {
        IsEqualBasics(Get(ea, k), Get(eb, k));
      }
    } else {
      IsEqualUnfoldRecords(ea, eb);
    }
  }

  /** Key order does not matter: an object equals any reordering of its
      entries. */
  lemma KeyOrderIrrelevant(ea: Entries, eb: Entries)
    requires DistinctKeys(ea) && DistinctKeys(eb)
    requires multiset(ea) == multiset(eb)
    ensures IsEqual(Rec(ea), Rec(eb))
  {
    forall k ensures k in KeysOf(ea) <==> k in KeysOf(eb) {
      if k in KeysOf(ea) {
        var i :| 0 <= i < |ea| && KeysOf(ea)[i] == k;
        assert ea[i] in multiset(eb);
        var j :| 0 <= j < |eb| && eb[j] == ea[i];
        assert KeysOf(eb)[j] == k;
      }
      if k in KeysOf(eb) {
        var j :| 0 <= j < |eb| && KeysOf(eb)[j] == k;
        assert eb[j] in multiset(ea);
        var i :| 0 <= i < |ea| && ea[i] == eb[j];
        assert KeysOf(ea)[i] == k;
      }
    }
    forall k | k in KeysOf(ea) ensures IsEqual(Get(ea, k), Get(eb, k)) {
      var i :| 0 <= i < |ea| && KeysOf(ea)[i] == k;
      assert ea[i] in multiset(eb);
      var j :| 0 <= j < |eb| && eb[j] == ea[i];
      GetStored(ea, i);
      GetStored(eb, j);
      IsEqualBasics(ea[i].1, ea[i].1);
    }
    IsEqualRecords(ea, eb);
  }

  /** A value all of whose records, at every depth, are objects. */
  predicate WellFormed(v: Value)
    decreases v
  {
    match v
    case Arr(items) => forall i :: 0 <= i < |items| ==> WellFormed(items[i])
    case Rec(es) => DistinctKeys(es) && forall i :: 0 <= i < |es| ==> WellFormed(es[i].1)
    case _ => true
  }

  lemma {:induction false} IsEqualFlip(a: Value, b: Value)
    requires WellFormed(a) && WellFormed(b)
    requires IsEqual(a, b)
    ensures IsEqual(b, a)
    decreases a
  {
    if a != b {
      if a.Arr? {
        forall i | 0 <= i < |b.items| ensures IsEqual(b.items[i], a.items[i]) {
          IsEqualFlip(a.items[i], b.items[i]);
        }
      } else if a.Rec? {
        var ea, eb := a.entries, b.entries;
        IsEqualUnfoldRecords(ea, eb);
        IsEqualUnfoldRecords(eb, ea);
        SortedKeysAgree(ea, eb);
        forall j | 0 <= j < |eb| ensures IsEqual(eb[j].1, Get(ea, eb[j].0)) {
          assert KeysOf(eb)[j] == eb[j].0;
          assert eb[j].0 in KeysOf(ea);
          var i :| 0 <= i < |ea| && KeysOf(ea)[i] == eb[j].0;
          GetStored(ea, i);
          GetStored(eb, j);
          assert IsEqual(ea[i].1, Get(eb, ea[i].0));
          IsEqualFlip(ea[i].1, eb[j].1);
        }
      }
    }
  }

  /** `isEqual` is symmetric on well-formed values. */
  lemma IsEqualSymmetric(a: Value, b: Value)
    requires WellFormed(a) && WellFormed(b)
    ensures IsEqual(a, b) == IsEqual(b, a)
  {
    if IsEqual(a, b) { IsEqualFlip(a, b); }
    if IsEqual(b, a) { IsEqualFlip(b, a); }
  }
}
