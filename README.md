# Reactive currency converter: a Dafny model

This project models the core of a small reactive currency converter written in
JavaScript with RxJS and virtual-dom. It has three parts:

- **Intents and state (converter.js).** Raw UI events become state-update
  functions `old -> new`. These are folded into the amount and currency state
  slices. The model then derives the rate, loading-flag, rate-label and
  converted-amount streams.
- **Container helpers (rx-helpers.js).**
  - `asObservable` lifts a plain child value to a stream.
  - `sequenceCombine$` combines the children by latest value, with a special
    case for an empty child list.
  - `container$` wraps each combination in a tagged virtual node.
  - `sink$` forwards UI callbacks into a subject.
- **Reconciler (rx-dom.js).**
  - `renderToDom` prepends the virtualized initial surface to the snapshot
    stream.
  - `applyAsPatches$` diffs every overlapping pair of snapshots and folds the
    diffs, left to right, into the target node.

## How streams are modelled

A stream is modelled by its **trace**: the finite sequence of values it has
emitted so far. Each Rx operator is a pure function on traces.

- **Merged streams.** Streams that run side by side are one tagged trace,
  `seq<Either<A, B>>`. Its order is the order in which emissions arrived.
  `Lefts` and `Rights` project it back onto each source.
- **Operators.** `Streams` defines the operators the converter uses:
  - `map`, `merge`, `scan`, `reduce` and `distinctUntilChanged`
  - two-source `combineLatest` and `withLatestFrom`
  - versions of `scan` and `distinctUntilChanged` that act on one side of a
    merged trace

  Projection lemmas tie each one-sided operator to the plain operator.
- **Converter events.** The whole converter runs off one trace of `Event`s:
  - text change, currency selection, "+", "-" and "Reset"
  - `RateArrived(r)`, which stands for a rate lookup resolving
- **Container children.** Each child is `Plain(v)` or `Live(trace)`. The
  runtime decides whose next value arrives next; that choice is the parameter
  `sched`, a sequence of child indices.
- **Foreign functions.** `diff`, `patch` and `virtualize` belong to foreign
  libraries, so they are function parameters. Nothing is assumed about them.
- **Imperative parts.**
  - The `reduce` of patches is a method with a loop. It is proved against the
    `Reduce` fold.
  - `sink$` is a class closed over a `Subject` class whose `onNext` appends to
    the subject's trace.

### Behaviour of the code worth knowing

- **Late rate lookups are never discarded.** `rate$` uses a plain `flatMap`
  (converter.js:68-70), so every lookup result reaches `rate$`, however late
  it arrives. Two things follow:
  - `rateCurrency$` labels each rate with the currency that is current when
    the rate *arrives* (converter.js:72-73), not the one it was looked up
    for.
  - `rateLoading$` turns false on *any* rate arrival (converter.js:75-78).

  `Converter.LateRateIsMislabelled` proves the consequence. A rate requested
  for EUR that resolves after another currency was selected is labelled with
  the new currency. It is used for the conversion, and it switches the
  loading flag off while the new lookup is still outstanding.
- **An error ends the reconciler.** `subscribeOnError` (rx-dom.js:8) only
  logs the error, and in Rx an error ends the stream, so no later snapshot is
  patched. The model has no exceptions: `diff` and `patch` are total.

## Model

| member | source | states |
|---|---|---|
| Streams.Map | rx-helpers.js:30 | one output per input, in order: output i is `f` of input i |
| Streams.MergeSplits | converter.js:75-78 | every emission of a merged trace comes from exactly one of its two sources |
| Streams.ProjectConcat | converter.js:59 | projecting `startWith(x) ++ rest` onto a source is the projection of the prefix followed by the projection of the rest |
| Streams.Merge | converter.js:75-78 | the merge emits once per emission of either source, in arrival order: `f` of left emissions, `g` of right ones |
| Streams.SwapProjections | converter.js:72-73 | exchanging the two sources of a merged trace exchanges their projections |
| Streams.ReduceSnoc | rx-dom.js:21 | reduce applies each value to the result of the previous step: folding one more value is one more step on the old result |
| Streams.Scan | converter.js:60 | scan emits once per input; the first emission is the step from the seed and the last is the fold of the whole input |
| Streams.ScanSnoc | converter.js:60 | one more input appends exactly the fold of the whole input so far and changes nothing already emitted |
| Streams.ScanIsPrefixFolds | converter.js:58-60 | emission k is the fold of the first k+1 inputs, and each emission is one step from the previous one |
| Streams.ScanLProjections | converter.js:58-61 | scanning one side of a merged trace is exactly `Scan` of that side and leaves the other side unchanged |
| Streams.DistinctUntilChanged | converter.js:65 | the output is empty iff the input is; it keeps the first and the latest value, never repeats a value immediately, and holds only input values |
| Streams.DistinctKeepsValues | converter.js:65 | every input value survives in the output |
| Streams.DistinctOfNoStutter | converter.js:65 | on a trace with no immediate repeats the operator is the identity, so applying it twice equals applying it once |
| Streams.DistinctLProjections | converter.js:62-66 | distinctUntilChanged on one side of a merged trace is exactly `DistinctUntilChanged` of that side and leaves the other side unchanged |
| Streams.CombineLatest2Silent | rx-helpers.js:5 | two-source combineLatest emits nothing iff one of the sources has not emitted |
| Streams.CombineLatest2Live | rx-helpers.js:5 | once both sources have emitted, every later arrival from either one emits exactly one value |
| Streams.WithLatestFromTotal | converter.js:72-73 | when the other stream emits first, every source emission yields exactly one output |
| RxHelpers.InterleaveProjects | rx-helpers.js:30-31 | in the runtime interleaving, each child contributes its own trace, in its own order, up to the number of times it was scheduled |
| RxHelpers.LiftedChildren | rx-helpers.js:16-22 | a plain child contributes its value exactly once, when first scheduled; a stream child passes its own values through unchanged |
| RxHelpers.CombineLatest | rx-helpers.js:31 | n-ary combineLatest emits at most once per arrival, and every emitted list has exactly n entries |
| RxHelpers.SequenceCombineStep | rx-helpers.js:30-31 | one more scheduled arrival on a non-empty child list appends exactly one list once every child has emitted, keeps the earlier lists, and puts at position i the latest value delivered by child i; otherwise it appends nothing |
| RxHelpers.CombineLatestOfNone | rx-helpers.js:25-26 | combineLatest over no streams never emits, which is the behaviour the empty-list case works around |
| RxHelpers.CombineLatestWaits | rx-helpers.js:31 | nothing is emitted while some child has not emitted |
| RxHelpers.CombineLatestValues | rx-helpers.js:31 | every entry i of every emitted list was emitted by child i |
| RxHelpers.SequenceCombine | rx-helpers.js:24-33 | every combined emission has exactly as many entries as there are children |
| RxHelpers.EmptyCombinationEmitsOnce | rx-helpers.js:27-28 | an empty child list emits exactly one value, the empty list, where plain combineLatest would emit nothing |
| RxHelpers.SequenceCombineWaits | rx-helpers.js:30-31 | a non-empty combination emits nothing while some child has not emitted |
| RxHelpers.SequenceCombineValues | rx-helpers.js:30-31 | position i of each combined emission holds a value of child i |
| RxHelpers.SequenceCombineAllPlain | rx-helpers.js:16-31 | a list of plain children, each scheduled, emits exactly one list: the children's values, in order |
| RxHelpers.Container | rx-helpers.js:11-14 | exactly one snapshot per combined emission, in order: snapshot k is an element with the given tag whose children are exactly combination k, one per declared child |
| RxHelpers.ContainerAllPlain | rx-helpers.js:11-22 | a container of plain children emits exactly one snapshot, whose children are the declared values in order |
| RxHelpers.Subject.constructor | rx-helpers.js:8 | a new subject has emitted nothing |
| RxHelpers.Subject.OnNext | rx-helpers.js:8 | `onNext` appends exactly its argument to what the subject has emitted |
| RxHelpers.Sink.constructor | rx-helpers.js:7 | the callback is closed over the given subject |
| RxHelpers.Sink.Call | rx-helpers.js:7-9 | each call forwards its event unchanged to the subject as exactly one emission |
| RxDom.Windows | rx-dom.js:18 | `bufferWithCount(2, 1)` opens one window per element; each window holds that element and the next one, and the last window holds only the last element |
| RxDom.PairsAreConsecutive | rx-dom.js:18-19 | the windows that pass the length filter are exactly the consecutive pairs: n snapshots give n-1 pairs, each pair's second element is the next pair's first, and the trailing partial window is dropped |
| RxDom.DiffAll | rx-dom.js:20 | one diff per pair, in order, each comparing the pair's `last` with its `current` |
| RxDom.ApplyAsPatches | rx-dom.js:16-22 | n snapshots yield n-1 diffs, diff k compares snapshots k and k+1, and the result is those diffs applied left to right from the target node; with at most one snapshot the target is returned untouched |
| RxDom.RenderToDom | rx-dom.js:3-9 | with the initial tree prepended, n snapshots yield exactly n diffs; the first compares the virtualized initial surface with the first snapshot, each later one compares consecutive snapshots, and with no snapshots the node is unchanged |
| Converter.AmountIntent | converter.js:40-45 | text change and reset replace the amount whatever it was (reset with 1); "+" gives exactly old+1; "-" gives old-1 from 1 upwards and 0 otherwise, so never a negative amount; other events give no update |
| Converter.CurrencyIntent | converter.js:46-49 | a selection or reset replaces the currency whatever it was (reset with "EUR"); other events give no update |
| Converter.Amounts | converter.js:58-61 | `amount$` starts with 1 and has exactly one more element than there are amount updates |
| Converter.CurrencyStates | converter.js:62-64 | the folded currency starts with "EUR" and has exactly one more element than there are currency updates |
| Converter.Currencies | converter.js:62-66 | `currency$` starts with "EUR", never repeats a currency immediately, and its latest value is the latest folded currency |
| Converter.IntentProjections | converter.js:39-55 | reading amount (or currency) updates and rate arrivals off one event trace gives exactly `updateAmount$` (or `updateCurrency$`) and `rate$` |
| Converter.TimelineProjections | converter.js:58-78 | the merged amount/rate and currency/rate timelines hold exactly the emissions of `amount$`, `currency$` and `rate$`, each in its own order |
| Converter.AmountStep | converter.js:58-60 | one more event appends its update applied to the current amount, or leaves `amount$` unchanged if it is not an amount event |
| Converter.CurrencyStep | converter.js:62-65 | one more event appends the new currency only when it differs from the current one |
| Converter.ResetRestoresInitialState | converter.js:42-48 | after a reset, the current amount is 1 and the current currency is "EUR", whatever came before |
| Converter.AmountNeverNegative | converter.js:43-44 | if no text change enters a negative amount, `amount$` never emits a negative value |
| Converter.AmountsAndRatesStep | converter.js:58-70 | one more event appends the new amount or the arrived rate to the amount/rate timeline, or nothing |
| Converter.CurrenciesAndRatesStep | converter.js:62-70 | one more event appends a changed currency or the arrived rate to the currency/rate timeline, or nothing |
| Converter.TimelineHeads | converter.js:58-66 | both timelines open with their slice's initial value |
| Converter.LoadingStep | converter.js:75-78 | `rateLoading$` appends false on every rate arrival and true on every currency change; nothing else changes it |
| Converter.LoadingFollowsTimeline | converter.js:75-78 | loading emits once per currency emission and once per rate emission, in merged order; it starts true, entry i is true iff timeline entry i is a currency, and the latest value is false iff the latest emission was a rate |
| Converter.RateCurrencyStep | converter.js:72-73 | each rate arrival appends the currency that is current when it arrives; other events append nothing |
| Converter.RateCurrencyCount | converter.js:72-73 | every rate is labelled exactly once |
| Converter.ConvertedWaitsForRate | converter.js:79-80 | `converted$` is empty iff no rate has arrived |
| Converter.ConvertedStep | converter.js:79-80 | once a rate has arrived, each amount update emits the new amount times the latest rate, and each rate arrival emits the latest amount times that rate |
| Converter.StartUp | converter.js:58-80 | before any event: amount [1], currency ["EUR"], loading [true], and no rate, label or converted value |
| Converter.SelectBeforeFirstRate | converter.js:62-78 | selecting another currency before any rate arrives appends it to `currency$` and true to `rateLoading$`, and emits no rate, label or converted value |
| Converter.LateRateIsMislabelled | converter.js:68-80 | a rate arriving after another currency was selected is labelled with that currency, converts the amount, and turns loading off |

## Left out

- `lookupRate`, its timer, promise and `rates` table (converter.js:13-24) are left out. A resolved lookup is a `RateArrived(r)` event in the trace. The model lets rates arrive at any point and in any number, so it does not tie them to the one lookup `flatMap` starts per currency emission. A rejected lookup is not modelled.
- `round` (converter.js:26-29) and floating point are left out. `Convert` multiplies exactly in `real`, and the amount is an `int`.
- Converter.AmountIntent: a text change is an abstract replacement by an integer. The input's string value, and JavaScript's string concatenation in `current + 1` after a text edit, are not modelled.
- The `view()` markup and hyperscript construction (converter.js:92-162) and the DOM bootstrap (converter.js:165-170) are presentation and host I/O.
- The internals of virtual-dom's `diff` and `patch` and of vdom-virtualize are left out; all three are parameters. RxDom.ApplyAsPatches: `patch` mutates the DOM node in place; the model threads the node as a value, so aliasing of the live node is not captured.
- RxDom.RenderToDom: `console.error` reporting (rx-dom.js:8) and error termination are left out; `diff` and `patch` never fail in the model.
- Rx scheduling, `shareReplay(1)` replay to late subscribers, and subscription lifetimes are left out. The runtime order of arrivals is the order of the event trace, or the `sched` parameter for container children.
- RxDom.ApplyAsPatches: Rx `reduce` emits only when the source completes. The model's result is the fold over the snapshots seen so far, as if the stream had completed after them.
- RxHelpers.Subject: only what the subject has emitted is modelled, not its subscribers.
