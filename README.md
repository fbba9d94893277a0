# fast-check-spies, modelled in Dafny

`Spy` is a library for property-based testing built on fast-check. It generates
spies, which are randomized mock functions that log every call. It also composes
spies and plain randomized data into one fixture. A fixture hands the test body
two things: the object of spies and a log object holding each spy's calls.

This project models the in-process bookkeeping of `src/fast-check-spies.ts`.
Every random draw is a parameter of the model:

- the sampled function `x` that `fc.func` produces;
- the value `b` a plain arbitrary draws;
- the sample `(c2, l2, b)` a nested spying arbitrary draws;
- the success/failure pick of the async spy, which is already part of the
  values `x` returns.

Modules:

- `Results` (`results.dfy`): the `Result` tagged union, its constructors and
  predicates. It also holds the async spy's result map to a settled promise
  (`ToPromise`) and the caller's `.then(success).catch(failure)` classification
  (`Classify`).
- `Logs` (`logs.dfy`): call records (`Spied`). The mutable log array `rec` is
  the class `LogCell`, with `Push` and `Truncate`. A reset procedure is a tree
  of truncations (`Reset`: `NoOp`, `Clear(cell)`, `Then(first, second)`), and
  `RunReset` executes it. A log structure is a tree of log-cell references
  (`Log`). A sample is `Sample(reset, log, value)`. `Covers` says the reset
  truncates every reachable log, and `Exact` says it truncates exactly those.
- `Spies` (`spies.dfy`): the spy callable `SpyFn` and the spy arbitrary
  `SpyArb`, which owns one log and draws spies over it (`arbSpyFn`), with its
  async variant `arbSpyPromiseFn`. `CallLogOf` is the log that a sequence of
  calls leaves behind, and `CallAll` makes those calls.
- `Compose` (`compose.dfy`): `Do`, both forms of `bind`, `record` (a fold of
  `bind` over `Object.entries`), `map` and `toArbitrary`.
- `Pipes` (`pipes.dfy`): `pipe` over a homogeneous sequence of functions,
  specified by the left fold `Fold`.

The overloads of `bind` (`src/fast-check-spies.ts:76-98`) constrain the keys
differently. The three-argument form excludes `name` from the value keys and
`logKey` from the log keys (`Exclude<LK, keyof L>`, line 85). The
two-argument form with a nested spying arbitrary excludes `name` from the value
keys only (line 93), although it also puts the nested log under `name`. So
`Compose.BindAs` requires both exclusions and `Compose.Bind` requires only the
first. `Compose.Bind` then proves two things. The reset always truncates every
reachable log (`Covers`). It truncates exactly the reachable logs (`Exact`)
when `name` is also fresh among the log keys. A `name` that is already a log
key replaces the earlier sub-log in the log object, but that log's reset stays
in the chain.

A spy arbitrary allocates its log array once, when `fc.constant([])` is
evaluated (line 11), and every sample it draws shares that array. A new draw
therefore starts with the calls of earlier runs still in the log, and only
`toArbitrary`'s reset empties it. Two entries of one `record` that use the same
spy arbitrary log into the same array.

`Object.assign({}, ...)` builds fresh objects, so `bind` never changes the
sample it extends. In the model, log and value objects are immutable maps, so
this holds by construction.

## Model

| member | source | states |
|---|---|---|
| Results.SuccessOf | src/fast-check-spies.ts:24 | `Result.success(v)` is classified as success and not as failure, and its payload is `v` |
| Results.FailureOf | src/fast-check-spies.ts:25 | `Result.failure(e)` is classified as failure and not as success, and its payload is `e` |
| Results.Classification | src/fast-check-spies.ts:26-27 | `isSuccess` and `isFailure` are mutually exclusive and exhaustive; each result equals the constructor its class names, applied to its payload |
| Results.ToPromise | src/fast-check-spies.ts:47-50 | the async result map fulfils exactly the successes with their payload and rejects exactly the failures with their payload |
| Results.Classify | src/fast-check-spies.test.ts:55-56 | classifying a settled promise gives a success exactly when it was fulfilled |
| Results.ClassifyToPromise | src/fast-check-spies.ts:47-50 | mapping a result to a promise and classifying it back returns that same result |
| Results.ToPromiseClassify | src/fast-check-spies.test.ts:54-58 | a classified promise maps back to the same settled promise, so the two maps are inverse |
| Logs.LogCell.constructor | src/fast-check-spies.ts:11 | the array that `fc.constant([])` evaluates once starts empty |
| Logs.LogCell.Push | src/fast-check-spies.ts:15 | `rec.push` appends exactly one entry at the end and keeps the earlier entries |
| Logs.LogCell.Truncate | src/fast-check-spies.ts:18 | `rec.length = 0` leaves the log empty |
| Logs.OrderListsCells | src/fast-check-spies.ts:114-118 | the truncation order of a chained reset lists exactly the cells the reset truncates |
| Logs.RunReset | src/fast-check-spies.ts:114-118 | running a chained reset empties every cell it names and touches no other cell; the new state does not depend on the old entries, so running it twice equals running it once |
| Logs.FieldsUpdateCells | src/fast-check-spies.ts:116 | adding a sub-log under a key adds at most that sub-log's reachable cells; under a fresh key it adds exactly them and loses none |
| Spies.SpyFn.constructor | src/fast-check-spies.ts:12-13 | the spy holds the sampled function, the optional result map and the shared log it was given |
| Spies.SpyFn.Call | src/fast-check-spies.ts:13-17 | a call appends exactly `{args: i, result: x(i)}` at the end of its log; it returns `mapRes(x(i))` when there is a map and the raw `x(i)` otherwise |
| Spies.SpyArb.constructor | src/fast-check-spies.ts:9-11 | building a spy arbitrary allocates one new, empty log and keeps the optional result map |
| Spies.SpyArb.Draw | src/fast-check-spies.ts:11-19 | every draw is a new spy over the arbitrary's one log, whose log structure is that log and whose reset truncates exactly it; drawing changes no log |
| Spies.ArbSpyPromiseFn | src/fast-check-spies.ts:38-50 | the async spy arbitrary is an `arbSpyFn` with a new empty log whose result map is the promise map; its log keeps the pre-mapping `Result` |
| Spies.TwoRuns | src/fast-check-spies.ts:11-19 | a second draw shares the first draw's log, which still holds the first run's call; `toArbitrary` empties it before the second run's call, which is then the only entry |
| Spies.CallAndClassify | src/fast-check-spies.test.ts:54-58 | calling an async spy and classifying the settled promise gives exactly the `Result` that the call logged |
| Spies.ReplayAfterReset | src/fast-check-spies.ts:13-18 | a reset empties the log and a second reset changes nothing; `x` is not redrawn, so a later call with the same args logs and returns the same value |
| Spies.CallLogOf | src/fast-check-spies.ts:13-15 | the log left by a sequence of calls has one entry per call |
| Spies.CallLogOfAt | src/fast-check-spies.test.ts:48-53 | log fidelity: entry `k` holds call `k`'s arguments and the raw sampled result for them |
| Spies.CallLogOfAppend | src/fast-check-spies.ts:15 | later calls only append: the log of `a + b` is the log of `a` followed by the log of `b` |
| Spies.CallLogOfSnoc | src/fast-check-spies.ts:14-15 | one more call extends the log exactly as `SpyFn.Call` does |
| Spies.CallAll | src/fast-check-spies.test.ts:48-49 | calling a spy on each input in order appends `CallLogOf(x, inputs)` to its log and returns, for each input, the mapped or raw sampled result |
| Compose.Do | src/fast-check-spies.ts:137 | `Do` has empty value and log objects, and a reset that truncates nothing |
| Compose.BindAs | src/fast-check-spies.ts:123-130 | the 3-argument `bind` puts `b` under `name` and `l2` under `logKey` and keeps every other key; its reset truncates the outer logs and then `c2`'s, in that order; it keeps `Covers` and `Exact` |
| Compose.Bind | src/fast-check-spies.ts:110-121 | the 2-argument `bind` puts `b` under `name` and keeps every other value key. A plain draw leaves the log and reset unchanged. A spying draw puts `l2` under `name` and chains the resets. It keeps `Covers` always, and keeps `Exact` when `name` is fresh among the log keys |
| Compose.RecordOf | src/fast-check-spies.ts:67-71 | the value keys of `record` are the entry keys gathered in order, its log keys those of the spying entries, and every log key is also a value key |
| Compose.EntryKeysAre | src/fast-check-spies.ts:67 | the gathered entry keys are exactly the keys of some entry of `Object.entries` |
| Compose.SpyKeysAre | src/fast-check-spies.ts:113-118 | the gathered spying keys are exactly the keys of the entries that drew a nested spying sample |
| Compose.LastKeyFresh | src/fast-check-spies.ts:77 | with distinct entry keys, each key the fold binds is not yet a value key, as `Exclude<N, keyof A>` demands |
| Compose.RecordOfValueKeys | src/fast-check-spies.ts:67-71 | the value keys of `record` are exactly the entry keys |
| Compose.RecordOfLast | src/fast-check-spies.ts:67-71 | the fold binds the last entry onto the record of the earlier entries, and its key is fresh there among both value and log keys |
| Compose.RecordOfLastFields | src/fast-check-spies.ts:67-71 | that last step sets the entry's value under its key, and sets its log only when the entry is spying |
| Compose.RecordOfValues | src/fast-check-spies.ts:67-71 | each entry's key holds the value its entry drew |
| Compose.RecordOfLogKeys | src/fast-check-spies.ts:67-71 | the log keys of `record` are exactly the keys of its spying entries |
| Compose.RecordOfLogs | src/fast-check-spies.ts:67-71 | each spying entry's key holds the log structure its entry drew |
| Compose.RecordOfOrder | src/fast-check-spies.ts:67-71 | the record's reset truncates the spying entries' logs in `Object.entries` order |
| Compose.RecordOfCovers | src/fast-check-spies.ts:67-71 | when every spying entry's reset covers its logs, the record's reset empties every log reachable from its log object |
| Compose.RecordOfExact | src/fast-check-spies.ts:67-71 | when every spying entry is exact, the record's reset truncates exactly the logs reachable from its log object |
| Compose.MapValue | src/fast-check-spies.ts:134-135 | `map f` turns the value into `f` of it and keeps the reset and the log |
| Compose.DoIdentity | src/fast-check-spies.ts:137 | binding a nested sample onto `Do` gives that sample's value and log under the key, and a reset that truncates the same logs in the same order |
| Compose.ToArbitrary | src/fast-check-spies.ts:52-53 | `toArbitrary` runs the reset once and hands out the sample's `(l, a)`; every log the reset names, and so every reachable log of a covered sample, is empty |
| Pipes.FoldSnoc | src/fast-check-spies.ts:618-622 | one more function at the end is applied to the result so far |
| Pipes.FoldPrefixes | src/fast-check-spies.ts:618-622 | each prefix of the functions pipes one step further than the one before |
| Pipes.FoldAppend | src/fast-check-spies.ts:598-623 | piping through `fs + gs` equals piping through `fs` and then through `gs` |
| Pipes.Pipe | src/fast-check-spies.ts:587-625 | the hand-written cases for one to eight functions and the loop for more all return `fn(...f1(a))` |

## Left out

- fast-check itself is not modelled: sampling, shrinking, replay, `chain`, `map` and `fc.func`. Every draw is a parameter. Of `fc.constant([])` the model keeps only that its array is allocated once per spy arbitrary (`Spies.SpyArb`). The sampled function `x` is a pure Dafny function, so equal arguments always give equal results within one sample.
- `fc.oneof` and its weights are not modelled. The async spy's success/failure pick is already part of the values `x` returns.
- `isWeightedArbitrary` and `mapMaybeWeightedArbitrary` are not modelled. They only reshape fast-check's weighted-arbitrary objects and carry the weight through unchanged.
- Results.ToPromise: a success payload is taken to be a plain value. `Promise.resolve` would adopt a thenable payload and settle with its outcome instead; this is not modelled.
- Promise settlement timing and overlapping in-flight async calls are host-runtime behaviour. A settled promise is the value `Settled`.
- TypeScript's type-level machinery is not modelled: the `bind` and `pipe` overload lists, and the conditional and mapped types. Key disjointness (`Exclude<N, keyof A>`, `Exclude<LK, keyof L>`) becomes a `requires` clause.
- The runtime check `isSpyingArbitrary` is replaced by the `Step` datatype, which says whether a draw came from a plain or a spying arbitrary. The 3-argument `bind` given a plain arbitrary would fail at runtime (`run_` is undefined). `Compose.BindAs` takes only a nested sample, as the overload types demand.
- Heterogeneous types are not modelled. In one composition every log entry has one type `T` and every field value one type `V`. A caller can choose a sum type for each. `Compose.MapValue` is how a nested record's value is put into `V`.
- Pipes.Pipe: `pipe` is modelled over functions from one type to itself. A call with no arguments at all is not modelled (the loop would return `undefined`).
- The test file is not modelled. It serves only as evidence for the properties above.
