# Helper library model

A Dafny model of the application's general-purpose TypeScript helpers under
`src/helpers/`:

- string utilities (`string.ts`): common prefix/suffix scans, `compare`,
  prefix/suffix subtraction, padding, `replaceStringAt`, first-letter case,
  `pascalCase`, `snakeCase`, `reverse`;
- record combinators (`object.ts`): `filterValues`, `pickBy`, `omitBy`,
  `mapValues`, `mapKeys`, `invert`, `pick`, `omit`, `mergeWith`, `hasKey`,
  `isEqual`, each guarded against prototype-polluting keys;
- checks (`check.ts`): `assertSafeKey`, `notNull`, `notUndefined`,
  `withFallback`, `match`;
- function wrappers (`function.ts`): `once`, `memoize`, the FIFO
  `asyncQueue`, `pipe`, `identity`, `tap`;
- the query-string serialiser `qs` (`url.ts`), with `encodeURIComponent`
  written out as ECMA-262 defines it;
- `escapeRegExp` (`regexp.ts`).

JavaScript values are the datatype `Values.Value` (strings, integers,
booleans, `null`, `undefined`, arrays, records). A record is its own
enumerable properties in insertion order (`Values.Entries`): assigning an
existing key overwrites it in place, assigning a new key appends it, reading
a key the record does not own gives `undefined` (properties inherited from
`Object.prototype` are not modelled, see "Left out"). A thrown error is the `Failure` side of a
`Result`; the prototype-pollution guard is `Checks.AssertSafeKey`.

Loops that build a result by assignment are methods with `while` loops,
proved against recursive specification functions (`Objects.Assigned`,
`Objects.Kept`, `Strings.CommonPrefix`). The wrappers in `function.ts` that
keep closure state are classes. The function they wrap is an `outcome`
parameter: the value it would return (`Success`) or throw (`Failure`) if
invoked now. Each call reports whether that function was invoked.

Modules: `Wrappers` (Option/Result), `Builtins` (the JavaScript built-ins
the helpers call: `split`, `join`, `repeat`, ASCII case mapping, number
printing, lexicographic `sort`), `Values`, `Checks`, `Objects`, `Strings`,
`Functions`, `Url`, `RegExp`.

## Model

| member | source | states |
|---|---|---|
| Checks.AssertSafeKey | src/helpers/check.ts:5-11 | fails, with a prototype-pollution error, exactly for `__proto__`, `constructor` and `prototype` |
| Checks.NotNull | src/helpers/check.ts:13-15 | false exactly for `null` |
| Checks.NotUndefined | src/helpers/check.ts:17-19 | false exactly for `undefined` |
| Checks.WithFallback | src/helpers/check.ts:21-23 | the returned function gives back any non-nullish argument and gives `x` for `null` or `undefined` |
| Checks.WithFallbackSettles | src/helpers/check.ts:21-23 | applying the fallback twice is the same as once; with a non-nullish fallback the result is never nullish |
| Checks.Match | src/helpers/check.ts:25-38 | a listed case wins even when `default` exists; otherwise `default`; fails with no-matching-case exactly when `x` is neither a key nor covered by `default` |
| Checks.MatchTotal | src/helpers/check.ts:29-37 | a matcher with `default`, or listing every case, never fails on those cases |
| Checks.MatchListedCase | src/helpers/check.ts:29-31 | each listed case answers its own value |
| Values.Get | src/helpers/object.ts:187 | the property read `object[key]` (also at object.ts:142): a key the record does not own reads as `undefined` |
| Values.Set | src/helpers/object.ts:187 | assignment keeps the length (the key existed and stays in place) or appends the new entry at the end |
| Values.Delete | src/helpers/object.ts:154 | `delete`, defined by filtering; its contract is `Values.DeleteMembers` |
| Values.ToText | src/helpers/object.ts:85 | `String(value)`, defined by cases; used by `Objects.InvertWrites` and `Url.Contribution`, whose lemmas state what follows from it |
| Values.SetNew | src/helpers/object.ts:184-187 | assigning a new key appends it at the end |
| Values.SetExisting | src/helpers/object.ts:184-187 | assigning an existing key keeps the key order |
| Values.GetSet | src/helpers/object.ts:184-187 | after assigning `k`, reading `k` gives the new value and every other key reads as before |
| Values.SetDistinct | src/helpers/object.ts:184-187 | assignment keeps the keys distinct |
| Values.DeleteMembers | src/helpers/object.ts:154 | `delete` removes exactly the entries with that key |
| Values.GetStored | src/helpers/object.ts:16-17 | in a record with distinct keys, reading an entry's key gives that entry's value |
| Objects.AssignedKeys | src/helpers/object.ts:184-188 | assigning a sequence of writes onto `{}` gives a record whose keys are the written keys, each once |
| Objects.AssignedLastWins | src/helpers/object.ts:184-188 | a key reads as its last write |
| Objects.AssignedUnwritten | src/helpers/object.ts:181-188 | an unwritten key reads as `undefined` |
| Objects.AssignedDistinctWrites | src/helpers/object.ts:16-22 | writes with distinct keys build exactly the record of those writes, in order |
| Objects.KeptMembers | src/helpers/object.ts:16-22 | the kept entries are exactly the entries satisfying the test, in input order |
| Objects.KeptDistinct | src/helpers/object.ts:16-22 | a filtered record keeps distinct keys |
| Objects.CopyKept | src/helpers/object.ts:16-24 | the shared filtering loop fails exactly when a kept key is unsafe, and otherwise returns the kept entries |
| Objects.FilterValues | src/helpers/object.ts:10-25 | fails exactly when an entry kept by `pred(value, key)` has an unsafe key; otherwise holds exactly the entries `pred` accepts |
| Objects.PickBy | src/helpers/object.ts:193-208 | fails exactly when a picked key is unsafe; otherwise holds exactly the entries `picker` accepts |
| Objects.OmitBy | src/helpers/object.ts:160-175 | fails exactly when a kept key is unsafe; otherwise holds exactly the entries `pred` rejects |
| Objects.PickOmitPartition | src/helpers/object.ts:160-208 | `pickBy` and `omitBy` with the same predicate split a record into two disjoint records that together hold every entry |
| Objects.KeptSplit | src/helpers/object.ts:160-208 | keeping with a predicate and with its negation together hold every entry exactly as often as the input |
| Objects.MappedValues | src/helpers/object.ts:118-124 | same keys in the same order; each value is `mapper(value, key)` by definition |
| Objects.MapValues | src/helpers/object.ts:112-127 | fails exactly when some key is unsafe; otherwise keeps the keys and maps every value |
| Objects.AssignedBuiltFrom | src/helpers/object.ts:101-108 | assigning writes gives a record whose keys are the written keys and whose values are each key's last write |
| Objects.AssignAll | src/helpers/object.ts:101-108 | the shared assignment loop fails exactly when some written key is unsafe, and otherwise returns the assigned record |
| Objects.RenameWrites | src/helpers/object.ts:101-105 | the writes, one per entry under `mapper(key, value)` with the original value, by definition; what they build is stated by `Objects.AssignedBuiltFrom` and `Objects.MapKeys` |
| Objects.MapKeys | src/helpers/object.ts:95-110 | fails exactly when some new key is unsafe; otherwise the record built from the renamed writes, colliding names keeping the last |
| Objects.InvertWrites | src/helpers/object.ts:84-90 | the writes, one per entry with the value's text as key and the old key as value, by definition; what they build is stated by `Objects.Invert` and `Objects.InvertInjective` |
| Objects.Invert | src/helpers/object.ts:79-93 | fails exactly when some value's text is an unsafe key; otherwise the record built from the inverted writes |
| Objects.InvertInjective | src/helpers/object.ts:84-90 | when the values' texts are distinct, every value's text reads back its original key |
| Objects.PickWrites | src/helpers/object.ts:184-187 | the writes, one per requested key with the value read from the input, by definition; what they build is stated by `Objects.Pick` |
| Objects.Pick | src/helpers/object.ts:177-191 | fails exactly when a requested key is unsafe; otherwise has exactly the requested keys, each once, each reading as in the input |
| Objects.DeleteKept | src/helpers/object.ts:151-155 | deleting one more key from a copy filtered by a key list is filtering by the longer list |
| Objects.Omit | src/helpers/object.ts:148-158 | fails exactly when a listed key is unsafe; otherwise keeps exactly the entries whose key is not listed, in order |
| Objects.Uniq | src/helpers/object.ts:134 | the deduplicated key list has the same members, each once |
| Objects.UniqFirstOrder | src/helpers/object.ts:134 | the deduplicated keys come in the order of their first occurrences in the input |
| Objects.MergeWrites | src/helpers/object.ts:134-143 | the written keys are `uniq` of both key lists (first-occurrence order by `Objects.UniqFirstOrder`); each value is `mapper(a[key], b[key])` by definition |
| Objects.MergeWith | src/helpers/object.ts:129-146 | fails exactly when a key of either record is unsafe; otherwise has the union of the keys, in first-occurrence order, each mapped from both sides |
| Objects.IsEqual | src/helpers/object.ts:34-58 | `isEqual`, defined by the same cases as the source; its laws are the `Objects.IsEqual*` and `Objects.KeyOrderIrrelevant` rows |
| Objects.HasKey | src/helpers/object.ts:27-32 | true for a record exactly on its keys, for an array exactly on its index names and `length`, false for every non-object |
| Objects.IsEqualBasics | src/helpers/object.ts:38-44 | every value equals itself; values of different `typeof` never do; an array never equals a record |
| Objects.IsEqualArrays | src/helpers/object.ts:46-48 | two arrays are equal exactly when they have the same length and equal elements position by position |
| Objects.IsEqualStringArrays | src/helpers/object.ts:54 | two key lists compare equal exactly when they are the same list |
| Objects.IsEqualRecords | src/helpers/object.ts:50-55 | two records are equal exactly when they have the same key set and equal values under every key |
| Objects.KeyOrderIrrelevant | src/helpers/object.ts:51-54 | records holding the same entries in a different order are equal |
| Objects.IsEqualSymmetric | src/helpers/object.ts:34-58 | `isEqual(a, b) == isEqual(b, a)` for records with distinct keys |
| Builtins.SortEqualIff | src/helpers/object.ts:51-54 | two key lists sort to the same list exactly when they are permutations of each other |
| Builtins.JoinSplit | src/helpers/string.ts:107-110 | joining the pieces of a split with the separator gives the string back |
| Builtins.SplitJoin | src/helpers/url.ts:12 | splitting a join of separator-free pieces gives the pieces back |
| Builtins.SplitCounts | src/helpers/string.ts:107-110 | a split gives one more piece than there are separators, holding every other character |
| Strings.CommonStart | src/helpers/string.ts:147-155 | the result is a prefix of both strings and cannot be extended: at its end one string ends or they differ |
| Strings.CommonEnd | src/helpers/string.ts:157-169 | the result is a suffix of both strings and cannot be extended at its front |
| Strings.CommonStartIsCommonPrefix | src/helpers/string.ts:147-155 | anything meeting `CommonStart`'s contract is the recursively defined longest common prefix |
| Strings.CommonEndIsCommonSuffix | src/helpers/string.ts:157-169 | anything meeting `CommonEnd`'s contract is the recursively defined longest common suffix |
| Strings.CommonStartUnique | src/helpers/string.ts:147-155 | the longest common prefix is unique |
| Strings.CommonEndUnique | src/helpers/string.ts:157-169 | the longest common suffix is unique |
| Strings.SubtractFromStart | src/helpers/string.ts:183-189 | when `s` starts with `t`, `t` followed by the result is `s`; otherwise `s` unchanged |
| Strings.SubtractFromEnd | src/helpers/string.ts:175-181 | when `s` ends with `t`, the result followed by `t` is `s`; otherwise `s` unchanged |
| Strings.SubtractFromEdges | src/helpers/string.ts:171-173 | subtracting at the start and then at the end, by definition; `Strings.SubtractInverts` states that it undoes concatenation at both edges |
| Strings.SubtractInverts | src/helpers/string.ts:171-189 | subtracting undoes concatenation at the start, at the end and at both edges |
| Strings.Compare | src/helpers/string.ts:191-223 | `commonStart + added + commonEnd` is `current`, `commonStart + removed + commonEnd` is `previous`, the start is the longest common prefix and the end the longest common suffix of what remains, so they never overlap |
| Strings.CompareExample | src/helpers/string.ts:201-205 | `compare` on the documented example gives exactly the documented common start, common end, removed and added parts |
| Strings.ExampleCommonStart | src/helpers/string.ts:201-202 | `text with` is the longest common prefix of the documented example |
| Strings.ExampleCommonEnd | src/helpers/string.ts:201-203 | ` in it` is the longest common suffix of the example's remainders |
| Strings.Repeat | src/helpers/string.ts:113-115 | fails, with a range error, exactly on a negative count; otherwise `|s| * n` characters, character `i` being `s[i mod |s|]` |
| Builtins.RepeatStringAt | src/helpers/string.ts:113-115 | character `i` of a repetition is character `i mod |s|` of the repeated string |
| Strings.PadStart | src/helpers/string.ts:84-90 | unchanged when long enough; otherwise `s` at the end after `length - |s|` copies of the pad |
| Strings.PadEnd | src/helpers/string.ts:92-98 | unchanged when long enough; otherwise `s` at the front followed by `length - |s|` copies of the pad |
| Strings.PadSingleChar | src/helpers/string.ts:84-98 | a one-character pad gives exactly the requested length, the padding all that character |
| Strings.ReplaceStringAt | src/helpers/string.ts:117-123 | unchanged for an index outside the string; otherwise the prefix before the index, the replacement, and the rest after the index |
| Strings.ReplaceWithSelf | src/helpers/string.ts:117-123 | replacing a character by itself changes nothing |
| Strings.LowerFirst | src/helpers/string.ts:66-73 | same length; only the first character lower-cased |
| Strings.UpperFirst | src/helpers/string.ts:75-82 | same length; only the first character upper-cased |
| Strings.FirstCaseLaws | src/helpers/string.ts:66-82 | both are idempotent, and `lowerFirst` undoes `upperFirst` on a string starting lower-case |
| Strings.Separator | src/helpers/string.ts:101 | a space if the string holds one, else an underscore if it holds one, else a hyphen if it holds one, else none |
| Strings.PascalCase | src/helpers/string.ts:100-105 | a string without separator is returned unchanged |
| Strings.PascalCaseDropsSeparators | src/helpers/string.ts:107-110 | with a separator, the result is shorter by the number of separators and contains none |
| Strings.PascalCaseAt | src/helpers/string.ts:107-110 | with a separator, character `i` of piece `k` sits after all earlier pieces (separators dropped): the first character upper-cased, every later one lower-cased |
| Strings.JoinEmptyAt | src/helpers/string.ts:110 | in a join with `''`, character `i` of part `k` sits at the summed length of the earlier parts plus `i` |
| Strings.SnakeCase | src/helpers/string.ts:125-141 | the result contains no upper-case letter |
| Strings.SnakeCaseWithoutSeparator | src/helpers/string.ts:128-134 | deleting the underscores gives the lower-cased input; the result is longer by the capitals after the first character |
| Strings.SnakeCaseAt | src/helpers/string.ts:128-134 | the first character lands lower-cased at the front; a later character lands after the earlier ones plus one underscore per capital among them, a capital as `_` followed by its lower-case form |
| Strings.SnakeCaseSegments | src/helpers/string.ts:136-140 | with an underscore or hyphen separator, or a space in a string without underscores, splitting the result on `_` gives exactly the non-empty lower-cased pieces, none empty |
| Strings.Reverse | src/helpers/string.ts:143-145 | same length, character `i` is character `|s| - 1 - i` of the input |
| Strings.ReverseLaws | src/helpers/string.ts:143-145 | reversing twice gives the string back, and reversal of a concatenation is the reversed parts in swapped order |
| Functions.Once.constructor | src/helpers/function.ts:100-101 | nothing executed yet |
| Functions.Once.Call | src/helpers/function.ts:103-112 | after a completed call, the stored result and `fn` not invoked; otherwise `fn` invoked and its outcome returned, stored only when it returns |
| Functions.FirstSuccess | src/helpers/function.ts:104-109 | no value exactly when every call of `fn` threw; otherwise the value of a call that returned after only throwing calls, i.e. the first one |
| Functions.CallOnceRepeatedly | src/helpers/function.ts:99-113 | a sequence of calls on one wrapper answers `OnceReply` at each call and invokes `fn` exactly while no earlier call returned |
| Functions.OnceSettles | src/helpers/function.ts:104-106 | once a call returned, every later call answers that value |
| Functions.OnceRetriesAfterThrow | src/helpers/function.ts:108-109 | while every earlier call threw, `fn` is invoked again and its outcome answered |
| Functions.Memoized.constructor | src/helpers/function.ts:76 | the cache starts empty |
| Functions.Memoized.Call | src/helpers/function.ts:78-88 | a hit answers the cached value without invoking `fn`; a miss invokes `fn` and caches a returned value under the first argument alone; nothing is removed |
| Functions.CallMemoizedRepeatedly | src/helpers/function.ts:73-93 | a sequence of calls answers from the cache built by the earlier calls and invokes `fn` exactly on a miss |
| Functions.CacheNeverEvicts | src/helpers/function.ts:79-85 | an entry, once cached, stays with its value |
| Functions.CacheKeys | src/helpers/function.ts:83-85 | the cache holds exactly the first arguments of calls whose `fn` returned |
| Functions.MemoConsistent | src/helpers/function.ts:78-90 | two calls with the same first argument that both answered a value answered the same one |
| Functions.ProcessNext | src/helpers/function.ts:219-228 | with a task waiting, the head is started, the rest keep waiting and processing is on; with none, processing is off |
| Functions.ScheduleStep | src/helpers/function.ts:231-245 | the task is appended; a task is started exactly when nothing was processing |
| Functions.Step | src/helpers/function.ts:231-245 | one `schedule` call or one settlement, by definition; `Functions.StepKeepsInvariant` states what it keeps |
| Functions.Replay | src/helpers/function.ts:215-245 | a run replayed from a fresh queue, by definition; `Functions.QueueInvariant` states what holds of every run |
| Functions.QueueInvariant | src/helpers/function.ts:216-245 | over any run: tasks start in scheduling order, processing holds exactly while one task runs, nothing waits while idle, and settlements go to the started tasks in order, so at most one runs at a time |
| Functions.StepKeepsInvariant | src/helpers/function.ts:219-245 | a `schedule` call or a settlement keeps the queue's invariant, the scheduled id joining the submitted tasks |
| Functions.ScheduleStartsWhenIdle | src/helpers/function.ts:241-243 | scheduling starts a task exactly when the queue is idle, and that task is the one just scheduled |
| Functions.SettleStartsNext | src/helpers/function.ts:233-238 | a resolution or rejection goes only to the running task's promise, then the next waiting task starts or processing stops |
| Functions.AsyncQueue.constructor | src/helpers/function.ts:215-217 | empty queue, not processing |
| Functions.AsyncQueue.ProcessNextTask | src/helpers/function.ts:219-228 | the new state and started task are `ProcessNext` of the old state |
| Functions.AsyncQueue.Schedule | src/helpers/function.ts:231-245 | the new state is `ScheduleStep` of the old, and the object stays the replay of its events |
| Functions.AsyncQueue.Settle | src/helpers/function.ts:236-238 | the new state is `ProcessNext` of the old, and the object stays the replay of its events |
| Functions.ThreeTasks | src/helpers/function.ts:231-243 | three tasks scheduled together start in the order 1, 2, 3 across a resolution and a rejection, and the queue ends idle |
| Functions.Pipe.Then | src/helpers/function.ts:122-124 | the new pipe's value is `fn` applied to the input |
| Functions.Pipe.Value | src/helpers/function.ts:125-127 | the value is the pipe's current input |
| Functions.PipeComposes | src/helpers/function.ts:120-129 | `pipe(x).then(f).then(g).value()` is `g(f(x))` |
| Functions.Identity | src/helpers/function.ts:66-68 | returns its argument |
| Functions.Tap | src/helpers/function.ts:158-161 | returns its value whatever `fn` returns |
| Url.Utf8 | src/helpers/url.ts:9-10 | one to four bytes, each below 256, one byte exactly for ASCII, continuation bytes in `80`–`BF` |
| Url.EncodeURIComponent | src/helpers/url.ts:9-10 | each character encoded in turn, by definition; its laws are the `Url.Encode*` rows |
| Url.EncodeChar | src/helpers/url.ts:9-10 | an unreserved character is kept; any other becomes `%XX` triples, three per UTF-8 byte |
| Url.EncodedUriSafe | src/helpers/url.ts:9-10 | every output character is unreserved or `%`, and the output is at least as long as the input |
| Url.EncodedHasNoDelimiters | src/helpers/url.ts:9-10 | the encoding never contains `&` or `=` |
| Url.EncodeAppend | src/helpers/url.ts:9-10 | encoding distributes over concatenation |
| Url.EncodeUnreserved | src/helpers/url.ts:9-10 | text made only of unreserved characters is its own encoding |
| Url.Contribution | src/helpers/url.ts:3-10 | the segments one entry contributes, by definition; `Url.ContributionCases` and `Url.ContributionShape` state them |
| Url.ContributionCases | src/helpers/url.ts:3-10 | null or undefined contribute nothing; an array one `key[]=element` per element in order; anything else one `key=value` |
| Url.SegmentsAppend | src/helpers/url.ts:7-11 | the segments of consecutive entries follow one another |
| Url.ContributionShape | src/helpers/url.ts:8-10 | every segment an entry contributes is a name, `=` and a value, with no `&` or `=` in either part |
| Url.SegmentShape | src/helpers/url.ts:7-11 | every segment has no `&` and splits on `=` into exactly a name and a value |
| Url.Qs | src/helpers/url.ts:1-13 | the segments joined with `&`, by definition; `Url.QsSplits` and `Url.QsSkipsNullish` state its properties |
| Url.QsSplits | src/helpers/url.ts:1-13 | the output is empty exactly when nothing contributes; otherwise splitting it on `&` gives back exactly the segments |
| Url.QsSkipsNullish | src/helpers/url.ts:3-6 | an entry with a null or undefined value leaves the output as without it |
| RegExp.EscapeRegExp | src/helpers/regexp.ts:6-8 | a backslash before each special character, by definition; its laws are the rows below |
| RegExp.EscapeLength | src/helpers/regexp.ts:6-8 | the output is longer by the number of special characters; without any, the input comes back unchanged |
| RegExp.EscapeAppend | src/helpers/regexp.ts:6-8 | escaping distributes over concatenation |
| RegExp.UnescapeEscape | src/helpers/regexp.ts:6-8 | dropping each backslash before a special character recovers the input |
| RegExp.SpecialsEscaped | src/helpers/regexp.ts:6-8 | each special character becomes a backslash and itself, every other character stays, at its place in the output |

## Left out

- Integer-like record keys: JavaScript enumerates keys such as `"2"` before other keys in ascending numeric order; the model keeps every key in insertion order.
- Numbers are integers: no floating point, `NaN`, `Infinity` or `-0`; `String()` of a number is its decimal form.
- Object identity: `===` and `Map` lookups compare objects by reference; the model compares values structurally (`isEqual`'s first test, `memoize`'s cache key).
- Inherited properties: `key in record` in `hasKey` and `match` also sees properties from the prototype chain (`toString`, ...); the model sees own keys only, and for arrays the index names and `length`.
- Values.Get: a property read `object[key]` of a key the object does not own finds an inherited property such as `Object.prototype.toString` (a function); the model reads `undefined` there, since functions are not part of `Value`.
- Objects.Pick: `pick(o, ['toString'])` stores the inherited function under `toString`; the model stores `undefined` (see `Values.Get`).
- Objects.MergeWith: for a key only one record owns, the other side's read may find an inherited property instead of `undefined`; the model passes `undefined` (see `Values.Get`).
- Case mapping covers ASCII letters only; `toLowerCase`/`toUpperCase` on other scripts is not modelled.
- Strings are sequences of code points; JavaScript indexes, splits and reverses UTF-16 code units, so strings outside the Basic Multilingual Plane differ, and `encodeURIComponent`'s error on a lone surrogate cannot arise.
- Strings.PadStart: the default `''` for an `undefined` string argument is not modelled; the string is always given.
- Strings.PadEnd: the same default `''` is not modelled either.
- `uniq` and `castArray` (`array.ts`) are not part of this model; `uniq` is taken as order-preserving deduplication (`Objects.Uniq`) and `pick`/`omit` take the key list directly, a single key being the one-element list.
- `debounce`, `throttle` and `wait` depend on `setTimeout` timing; `rescue` is exception control flow only; `noop` does nothing.
- `cloneDeep`, `safeJsonParse` and `safeJsonStringify` are wrappers around JSON; `isRecord` inspects prototypes and is replaced by the `Rec` constructor; `deburr` depends on Unicode normalisation.
- The wrapped functions of `once` and `memoize` and the callbacks of `asyncQueue` are not modelled: their outcomes are parameters.
- Functions.AsyncQueue.Settle: a callback that throws synchronously instead of returning a rejected promise leaves the queue processing with nothing running; the model assumes every callback returns a promise, and that a settlement only arrives from the running task.
- Functions.Tap: the callback's side effects are not modelled.
- Strings.SnakeCaseSegments: with both a space and `_` in the string the separator is the space and the pieces keep their underscores (`"a _b"` gives `"a__b"`), so splitting the result on `_` does not give the pieces back; the lemma leaves that case out.
- Objects.FilterValues, Objects.PickBy, Objects.OmitBy, Objects.MapKeys, Objects.MapValues, Objects.MergeWith, Functions.Pipe.Then: callbacks are total pure functions. A callback that throws and aborts the loop partway, the order of the calls and their side effects are not modelled. Neither is which error wins when both could throw: `mapValues` checks the key before it calls the mapper, and `filterValues` calls the predicate before it checks the key.
- Record values that are functions, symbols or class instances are not part of `Value`.
