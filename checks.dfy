/** Guards and small predicates: the prototype-pollution key guard, a
    lookup-with-default dispatcher, a nullish fallback and the null and
    undefined tests. */
module Checks {
  import opened Wrappers
  import opened Values

  /** The keys whose assignment could reach an object's prototype. */
  predicate IsUnsafeKey(key: string) {
    key == "__proto__" || key == "constructor" || key == "prototype"
  }

  /** `assertSafeKey`: fails with a prototype-pollution error on the three
      unsafe keys and passes every other key. */
  function AssertSafeKey(key: string): (r: Result<(), Error>)
    ensures r.Failure? <==> key in {"__proto__", "constructor", "prototype"}
    ensures r.Failure? ==> r.error == PrototypePollution
  {
    if IsUnsafeKey(key) then Failure(PrototypePollution) else Success(())
  }

  /** `notNull`: false only for null. */
  function NotNull(x: Value): (r: bool)
    ensures !r <==> x == Null
  {
    !x.Null?
  }

  /** `notUndefined`: false only for undefined. */
  function NotUndefined(x: Value): (r: bool)
    ensures !r <==> x == Undefined
  {
    !x.Undefined?
  }

  /** `withFallback(x)`: a function that passes its argument through unless
      it is null or undefined, in which case it gives `x` (the `??`
      operator). */
  function WithFallback(x: Value): (f: Value -> Value)
    ensures forall y :: NotNull(y) && NotUndefined(y) ==> f(y) == y
    ensures forall y :: !NotNull(y) || !NotUndefined(y) ==> f(y) == x
  {
    (y: Value) => if y.Null? || y.Undefined? then x else y
  }

  /** The fallback is applied at most once: applying the same fallback to its
      own result changes nothing, and the result is nullish only when the
      fallback itself is. */
  lemma WithFallbackSettles(x: Value, y: Value)
    ensures WithFallback(x)(WithFallback(x)(y)) == WithFallback(x)(y)
    ensures NotNull(x) && NotUndefined(x) ==>
              NotNull(WithFallback(x)(y)) && NotUndefined(WithFallback(x)(y))
  {
  }

  /** `match(x, matcher)`: the case stored under `x` when the matcher has
      that key, otherwise its `default` case when it has one, otherwise a
      failure naming `x`. Only the matcher's own keys are consulted. */
  function Match(x: string, matcher: Entries): (r: Result<Value, Error>)
    ensures x in KeysOf(matcher) ==> r == Success(Get(matcher, x))
    ensures x !in KeysOf(matcher) && "default" in KeysOf(matcher) ==>
              r == Success(Get(matcher, "default"))
    ensures r.Failure? <==> x !in KeysOf(matcher) && "default" !in KeysOf(matcher)
    ensures r.Failure? ==> r.error == NoMatchingCase(x)
  {
    if x in KeysOf(matcher) then Success(Get(matcher, x))
    else if "default" in KeysOf(matcher) then Success(Get(matcher, "default"))
    else Failure(NoMatchingCase(x))
  }

  /** A matcher with a `default` case never fails, and a matcher that lists
      every value a caller can pass never fails for those values. */
  lemma MatchTotal(matcher: Entries, cases: set<string>)
    requires "default" in KeysOf(matcher) || forall c :: c in cases ==> c in KeysOf(matcher)
    ensures forall x :: x in cases ==> Match(x, matcher).Success?
  {
  }

  /** In an object (distinct keys), a listed case wins over `default`: the
      result is the value stored with the entry that carries `x`. */
  lemma MatchListedCase(matcher: Entries, i: nat)
    requires DistinctKeys(matcher)
    requires i < |matcher|
    ensures Match(matcher[i].0, matcher) == Success(matcher[i].1)
  {
    assert KeysOf(matcher)[i] == matcher[i].0;
    GetStored(matcher, i);
  }
}
