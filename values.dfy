/** The value universe the helpers work on (strings, numbers, booleans,
    null, undefined, arrays and plain records) and the handful of object
    operations the helpers are built from: `Object.keys`, `Object.entries`,
    property read, property assignment and `delete`. */
module Values {
  import opened Builtins

  /** A JSON-like value. A record is its list of own entries in insertion
      order, as `Object.entries` returns them; numbers are integers. */
  datatype Value =
    | Str(s: string)
    | Num(n: int)
    | Bool(b: bool)
    | Null
    | Undefined
    | Arr(items: seq<Value>)
    | Rec(entries: seq<(string, Value)>)

  type Entries = seq<(string, Value)>

  /** The errors the helpers throw. */
  datatype Error =
    | PrototypePollution          // assertSafeKey refused a key
    | NoMatchingCase(x: string)   // match found neither the key nor `default`
    | RangeError                  // String.prototype.repeat with a negative count
    | Thrown(reason: Value)       // an exception raised by a wrapped callback

  /** The `typeof` operator. */
  function TypeOf(v: Value): string {
    match v
    case Str(_) => "string"
    case Num(_) => "number"
    case Bool(_) => "boolean"
    case Undefined => "undefined"
    case _ => "object"
  }

  /** `Object.keys`. */
  function KeysOf(es: Entries): (ks: seq<string>)
    ensures |ks| == |es|
    ensures forall i :: 0 <= i < |es| ==> ks[i] == es[i].0
  {
    seq(|es|, i requires 0 <= i < |es| => es[i].0)
  }

  /** What every object satisfies: no key occurs twice. */
  predicate DistinctKeys(es: Entries) {
    forall i, j :: 0 <= i < j < |es| ==> es[i].0 != es[j].0
  }

  /** Property read `o[k]`: the value stored under `k`, or undefined. */
  function Get(es: Entries, k: string): (v: Value)
    ensures k !in KeysOf(es) ==> v == Undefined
    decreases |es|
  {
    if |es| == 0 then Undefined
    else if es[0].0 == k then es[0].1
    else
      assert k !in KeysOf(es) ==> k !in KeysOf(es[1..]) by {
        if k in KeysOf(es[1..]) {
          var i :| 0 <= i < |es| - 1 && KeysOf(es[1..])[i] == k;
          assert KeysOf(es)[i + 1] == k;
        }
      }
      Get(es[1..], k)
  }

  /** Property assignment `o[k] = v`: an existing key keeps its place and
      takes the new value, a new key is appended. */
  function Set(es: Entries, k: string, v: Value): (r: Entries)
    ensures |r| == |es| || r == es + [(k, v)]
    decreases |es|
  {
    if |es| == 0 then [(k, v)]
    else if es[0].0 == k then [(k, v)] + es[1..]
    else [es[0]] + Set(es[1..], k, v)
  }

  lemma KeysOfTail(es: Entries, k: string)
    requires |es| > 0
    ensures k in KeysOf(es) <==> es[0].0 == k || k in KeysOf(es[1..])
  {
    assert KeysOf(es) == [es[0].0] + KeysOf(es[1..]);
  }

  /** Assigning a new key appends it. */
  lemma {:induction false} SetNew(es: Entries, k: string, v: Value)
    requires k !in KeysOf(es)
    ensures Set(es, k, v) == es + [(k, v)]
    decreases |es|
  {
    if |es| > 0 {
      KeysOfTail(es, k);
      SetNew(es[1..], k, v);
      assert es == [es[0]] + es[1..];
    }
  }

  lemma KeysOfCons(e: (string, Value), t: Entries)
    ensures KeysOf([e] + t) == [e.0] + KeysOf(t)
  {
  }

  /** Assigning an existing key leaves the key list alone. */
  lemma {:induction false} SetExisting(es: Entries, k: string, v: Value)
    requires k in KeysOf(es)
    ensures KeysOf(Set(es, k, v)) == KeysOf(es)
    decreases |es|
  {
    KeysOfTail(es, k);
    assert es == [es[0]] + es[1..];
    KeysOfCons(es[0], es[1..]);
    if es[0].0 != k {
      SetExisting(es[1..], k, v);
      KeysOfCons(es[0], Set(es[1..], k, v));
    } else {
      KeysOfCons((k, v), es[1..]);
    }
  }

  /** Reading after assigning: the assigned key gives the new value, every
      other key its old one. */
  lemma {:induction false} GetSet(es: Entries, k: string, v: Value, k': string)
    ensures Get(Set(es, k, v), k') == if k' == k then v else Get(es, k')
    decreases |es|
  {
    if |es| > 0 && es[0].0 != k {
      GetSet(es[1..], k, v, k');
      assert ([es[0]] + Set(es[1..], k, v))[1..] == Set(es[1..], k, v);
    } else if |es| > 0 {
      assert ([(k, v)] + es[1..])[1..] == es[1..];
    }
  }

  /** Assignment keeps an object's keys distinct. */
  lemma {:induction false} SetDistinct(es: Entries, k: string, v: Value)
    requires DistinctKeys(es)
    ensures DistinctKeys(Set(es, k, v))
    decreases |es|
  {
    if k !in KeysOf(es) {
      SetNew(es, k, v);
      assert forall i :: 0 <= i < |es| ==> es[i].0 != k by {
        forall i | 0 <= i < |es| ensures es[i].0 != k { assert KeysOf(es)[i] == es[i].0; }
      }
    } else {
      SetExisting(es, k, v);
      var r := Set(es, k, v);
      assert forall i :: 0 <= i < |r| ==> r[i].0 == es[i].0 by {
        forall i | 0 <= i < |r| ensures r[i].0 == es[i].0 {
          assert KeysOf(r)[i] == KeysOf(es)[i];
        }
      }
    }
  }

  /** `delete o[k]`: the entries whose key is not `k`, in order. */
  function Delete(es: Entries, k: string): Entries
    decreases |es|
  {
    if |es| == 0 then []
    else Delete(es[..|es| - 1], k) + (if es[|es| - 1].0 == k then [] else [es[|es| - 1]])
  }

  /** Deleting removes exactly the entries with that key. */
  lemma {:induction false} DeleteMembers(es: Entries, k: string)
    ensures forall e :: e in Delete(es, k) <==> e in es && e.0 != k
    decreases |es|
  {
    if |es| > 0 {
      var init, last := es[..|es| - 1], es[|es| - 1];
      DeleteMembers(init, k);
      assert es == init + [last];
    }
  }

  /** In an object, the value read under a key is the one stored with it. */
  lemma {:induction false} GetStored(es: Entries, i: nat)
    requires DistinctKeys(es)
    requires i < |es|
    ensures Get(es, es[i].0) == es[i].1
    decreases i
  {
    if i > 0 {
      assert es[0].0 != es[i].0;
      assert DistinctKeys(es[1..]);
      GetStored(es[1..], i - 1);
    }
  }

  /** A key is present exactly when some entry carries it. */
  lemma KeysOfMember(es: Entries, k: string)
    ensures k in KeysOf(es) <==> exists i :: 0 <= i < |es| && es[i].0 == k
  {
    if k in KeysOf(es) {
      var i :| 0 <= i < |es| && KeysOf(es)[i] == k;
    }
  }

  /** `String(v)`: the text a value converts to. Integers print in decimal,
      an array joins its elements' texts with commas (null and undefined
      elements as the empty text), and a record prints as
      `[object Object]`. */
  function ToText(v: Value): string
    decreases v
  {
    match v
    case Str(s) => s
    case Num(n) => IntToString(n)
    case Bool(b) => if b then "true" else "false"
    case Null => "null"
    case Undefined => "undefined"
    case Arr(items) =>
      Join(seq(|items|, i requires 0 <= i < |items| =>
             if items[i].Null? || items[i].Undefined? then "" else ToText(items[i])), ",")
    case Rec(_) => "[object Object]"
  }
}
