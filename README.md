# coroutines.js, modelled in Dafny

coroutines.js is a small cooperative scheduler, written with JavaScript generators.
A `Coroutines` container holds an array of generator objects ("coroutines").
- `start` appends a generator to the array. Given a generator function, it calls the function first.
- `stop` removes one entry with `splice(indexOf(coro), 1)`.
- `stopAll` empties the array.
- `tick` resumes every registered coroutine once, in order. It collects those whose `next()` reported `done`, then removes each of them with the same `splice(indexOf(x), 1)`.

There is one process-wide clock binding, `_clock`, and `setClock` rebinds it. The library ships five built-in coroutines:
- `wait(seconds, clock)`
- `waitFrames(n)`
- `waitUntil(f)`
- `waitWhile(f)`
- `animate(obj, prop, to, options)`, which tweens a property.

The project has three modules:

- `primitives.dfy` (module `Primitives`). Each built-in coroutine becomes an explicit resumable state machine, a pure function from one suspension point to the next.
  - A clock is modelled as a function from the index of a clock call to its reading, and a predicate as a function from the index of its call to its answer.
  - Run functions (`WaitAfter`, `FramesAfter`, `GateAfter`, `AnimateAfter`) compose the machines.
  - Lemmas characterise each run outright: which resumption completes, what was read, and what was written.
- `registry.dfy` (module `Registry`). The array bookkeeping over sequences.
  - JS `indexOf`, and `splice(start, 1)` with its clamping of negative and oversized starts.
  - The removal that `stop` and the second loop of `tick` perform.
  - The lists `tick` collects.
  - Lemmas relating a sequence of `splice(indexOf(x), 1)` removals to a filter.
- `scheduler.dfy` (module `Scheduler`). The imperative part.
  - `Coroutine` is a class whose `Resume` runs a generator body step by step. It is proved to agree with the machines of `Primitives`.
  - `Coroutines` is a class with a `seq<Coroutine>` field, and its methods change it as the JS methods change their array.
  - `ClockBinding` is the `_clock` binding, `Host` counts the process's clock calls, and `Predicate` and `Cell` stand for the user's predicate and the animated property.

Notable behaviours of the code, all of which the model keeps:

- **waitFrames.** `waitFrames(n)` tests `n-- > 0`, which compares the value *before* the decrement. It is therefore pending on its first `n` resumptions and done on resumption `n + 1` (`FramesReportIff`). `waitFrames(0)` is done on the first resumption.
- **animate's last write.** The doc comment at coroutines.js:172 calls `to` "the final value of `obj.prop`". But `animate` tests `t < 1` before it writes, so every value it writes uses a progress below 1. With the default linear blend and the identity map, and a start value below `to`, the property never reaches `to` in exact arithmetic, whatever the clock reads (`AnimateDefaultFallsShort`). In IEEE doubles the last blend can round to `to` exactly, so the code guarantees neither reaching `to` nor falling short of it. The resumption that finds `t >= 1` writes nothing and reports done.
- **Stopping an absent handle.** The doc comment at coroutines.js:37-39 says `stop` stops a single coroutine. For a handle that is not registered, `indexOf` gives -1, and `splice(-1, 1)` removes the last registered coroutine (`Stopped`, `Scheduler.Coroutines.Stop`).
- **animate's clock.** `animate` ignores `options.clock`. Every clock read goes to the `_clock` binding as it is at that moment, so a `setClock` during an animation takes effect on its next resumption. In contrast, `wait` without a `clock` argument keeps the function bound when the generator was created.
- **Handles registered twice.** With a handle registered twice, "a coroutine that reports done is gone after the tick" can fail. If its first resumption reports pending and its second reports done, only one entry is removed. For any registry, `Tick` ties each report to the resumption that made it, one resumption per registry position in order, and states the resulting registry as a fold of `Stopped` over the handles that reported done. The retirement property is stated for a registry without duplicates.

## Model

| member | source | states |
|---|---|---|
| Primitives.WaitResume | coroutines.js:119-124 | A resumption of `wait` reports done exactly when the generator is over. A pending resumption leaves it suspended with its start time unchanged. A resumption after the end reads no clock. |
| Primitives.WaitShape | coroutines.js:119-124 | After n undisturbed resumptions, `wait` is either suspended with the first clock reading as start time and n + 1 clock calls made, or over once some measured elapsed time reached `seconds`. |
| Primitives.WaitReportIff | coroutines.js:120-123 | Resumption n is pending if and only if every elapsed time measured so far, its own included, is below `seconds`. |
| Primitives.WaitReportMonotone | coroutines.js:120-123 | With a non-decreasing clock, resumption n is pending if and only if its own reading minus the start time is below `seconds`. |
| Primitives.WaitNonPositive | coroutines.js:119-124 | With a non-decreasing clock, a non-positive duration completes on the first resumption. |
| Primitives.FramesResume | coroutines.js:133-137 | A `waitFrames` resumption reports done exactly when the generator is over, and calls nothing outside. |
| Primitives.FramesShape | coroutines.js:134 | After j resumptions the counter is n - j while j <= n (or j = 0), and the generator is over afterwards. |
| Primitives.FramesReportIff | coroutines.js:134-136 | Resumption j of `waitFrames(n)` is pending if and only if j < n. |
| Primitives.GateResume | coroutines.js:146-163 | A `waitUntil`/`waitWhile` resumption reports done exactly when the generator is over. It calls `f` once while gated and never after the end. |
| Primitives.GateShape | coroutines.js:146-163 | While every answer of `f` so far lets the wait go on, the wait is gated with one call of `f` per resumption; otherwise it is over. |
| Primitives.GateReportIff | coroutines.js:147-148 | Resumption n is pending if and only if every answer of `f` so far, its own included, lets the wait go on. |
| Primitives.GateStops | coroutines.js:147-148 | If answer m is the first to stop the wait, `f` has been called exactly m + 1 times after any later number of resumptions. |
| Primitives.WhileIsUntilOfNot | coroutines.js:146-163 | `waitWhile(f)` runs and reports exactly as `waitUntil` of the negation of `f`. |
| Primitives.AnimateResume | coroutines.js:181-193 | An `animate` resumption reports done exactly when the generator is over, and exactly when it writes nothing. |
| Primitives.AnimateShape | coroutines.js:182-191 | While every progress so far is below 1, `animate` keeps `from` equal to the value found first, with progress `clock(n) - clock(0)` and n + 1 clock calls, and the property holds the last blend. Otherwise it is over. |
| Primitives.AnimateStepIff | coroutines.js:185-191 | Resumption n is pending if and only if every progress up to n is below 1. A pending resumption writes `blend(from, to, ease(progress))` and a done one writes nothing. The first resumption writes the blend at progress 0. |
| Primitives.AnimateEaseArgument | coroutines.js:185-189 | With a non-decreasing clock, every argument passed to the `map` option lies in [0, 1). |
| Primitives.LinearBelow | coroutines.js:181 | In exact arithmetic, the default interpolation `b * t + a * (1 - t)` stays strictly below `b` for a < b and any t < 1, negative t included. |
| Primitives.DefaultsStayBelow | coroutines.js:181 | The default `map` sends [0, 1) into [0, 1), and the default interpolation stays below its target there. |
| Primitives.AnimateWritesBelow | coroutines.js:185-189 | With a non-decreasing clock, a start value below `to` and such options, every value written is below `to`. |
| Primitives.AnimateFallsShort | coroutines.js:185-193 | Under the same conditions and in exact arithmetic, the property stays strictly below `to` after any number of resumptions. |
| Primitives.AnimateDefaultBelowStep | coroutines.js:185-191 | In exact arithmetic, with the default options and any clock, one resumption keeps a property that is below `to` below `to`. |
| Primitives.AnimateDefaultFallsShort | coroutines.js:181-193 | In exact arithmetic, with the default options and any clock, an animation from below `to` never reaches `to`. |
| Registry.IndexOf | coroutines.js:42 | `indexOf` gives -1 exactly when the handle is absent, and otherwise the position of its first occurrence. |
| Registry.Stopped | coroutines.js:41-43 | `splice(indexOf(x), 1)` removes the first occurrence of a registered `x` and keeps the rest in order. For an absent `x` it removes the last element, and an empty registry stays empty. |
| Registry.StoppedDropsOne | coroutines.js:41-43 | Stopping a registered handle removes exactly one occurrence of it and nothing else, as multisets. |
| Registry.StoppedIsWithout | coroutines.js:41-43 | On a registry without duplicates, stopping a registered handle is filtering it out. |
| Registry.SelectMembers | coroutines.js:58-63 | The collected list holds only registered handles, and every handle whose report is the one wanted. |
| Registry.SelectFrom | coroutines.js:58-63 | Every collected handle stands at a registry position whose report is the one wanted. |
| Registry.SelectNoDup | coroutines.js:58-63 | Collecting from a registry without duplicates gives a list without duplicates. |
| Registry.RemoveEachIsWithout | coroutines.js:64-66 | Removing each of a duplicate-free list of registered handles, one `splice(indexOf(x), 1)` at a time, is filtering them out. |
| Registry.WithoutChosen | coroutines.js:56-67 | Filtering out the handles that reported done leaves exactly those that reported pending. |
| Registry.RetireKeepsPending | coroutines.js:56-67 | On a registry without duplicates, the registry after `tick`'s removals is the handles that reported pending, in their original order and without duplicates. A handle stays registered if and only if it reported pending. |
| Scheduler.Host.Read | coroutines.js:97 | A clock call returns the reading at the current call index and advances the index by one. |
| Scheduler.ClockBinding.SetClock | coroutines.js:106-108 | After `setClock(f)` the binding is `f`. |
| Scheduler.Predicate.Call | coroutines.js:147 | A call of `f` returns its answer at the current call index and advances the index by one. |
| Scheduler.Coroutine.constructor | coroutines.js:119-193 | Calling a generator function makes a generator whose body has not started. |
| Scheduler.Coroutine.Resume | coroutines.js:119-193 | `next()` runs the body, for each built-in coroutine, exactly as its machine's resumption does from the state before the call (`StepFrom(old(Snap()), done)`): the new suspension point, the clock or predicate calls made, the value written into the property and the `done` report. `done` says whether the generator has returned, and a generator that has returned stays returned and reports done. The resumption and its report are entered in the journal. |
| Scheduler.Coroutine.RunWait | coroutines.js:119-124 | The body of `wait` from its suspension point to its next `yield` or its end does what `WaitResume` says: the new position, one or two clock calls, and the report. |
| Scheduler.Coroutine.RunFrames | coroutines.js:133-137 | The body of `waitFrames` does what `FramesResume` says. |
| Scheduler.Coroutine.RunGate | coroutines.js:146-163 | The body of `waitUntil` or `waitWhile` does what `GateResume` says: at most one call of `f` and the report. |
| Scheduler.Coroutine.RunAnimate | coroutines.js:181-193 | The body of `animate` does what `AnimateResume` says: the new position, the clock calls through the current `_clock` binding, the value written and the report. |
| Scheduler.Wait | coroutines.js:119 | `wait` makes an unstarted generator that uses the given clock or, without one, the function bound to `_clock` at creation. |
| Scheduler.WaitFrames | coroutines.js:133 | `waitFrames(n)` makes an unstarted generator with counter n. |
| Scheduler.WaitUntil | coroutines.js:146 | `waitUntil(f)` makes an unstarted generator gated on `f`. |
| Scheduler.WaitWhile | coroutines.js:159 | `waitWhile(f)` makes an unstarted generator gated on `f`. |
| Scheduler.Animate | coroutines.js:181 | `animate` makes an unstarted generator with the given `map` and `interpolate`, or the identity map and the linear blend without options. |
| Scheduler.Coroutines.constructor | coroutines.js:10-14 | A new container has the given name, no coroutines, and is active. |
| Scheduler.Coroutines.Start | coroutines.js:31-35 | `start` appends the generator, or a fresh unstarted generator from a generator function, and returns it. Nothing else changes. |
| Scheduler.Coroutines.Stop | coroutines.js:41-43 | `stop` makes the registry `Stopped(old registry, coro)`, and nothing else changes. |
| Scheduler.Coroutines.StopAll | coroutines.js:47-49 | `stopAll` empties the registry, and nothing else changes. |
| Scheduler.Coroutines.Tick | coroutines.js:56-67 | The pass makes exactly one resumption per registry position, in order: the k-th is of the k-th registered handle and reports `finished[k]`, as recorded by `Coroutine.Resume`, the journal's only writer. When no handle is registered twice and no two share a clock counter, predicate or property (`Separate`), each handle has made one machine step from its state before the tick (`before[k]`) to its new position, reporting `finished[k]` (`Resumed`). The registry becomes the old one with each handle that reported done removed by `splice(indexOf(x), 1)`, so the removal is exact for any registry. Without duplicates: a handle reported done exactly when it has returned, the survivors are exactly those that reported pending (in order, without duplicates), and none of them has returned. |
| Scheduler.Coroutines.StopEach | coroutines.js:64-66 | The second loop of `tick` applies `splice(indexOf(x), 1)` for each collected handle in turn. |
| Scheduler.ResumeEach | coroutines.js:57-63 | The first loop of `tick` makes one resumption per position of the registry, in order, with the k-th reporting `finished[k]`, as recorded in the journal by `Coroutine.Resume`. For a `Separate` registry, each handle's new position is one machine step from its snapshot before the pass, with the report `finished[k]` (`Resumed`). It collects, in order, exactly the handles whose resumption reported done. Without duplicates, a report is done exactly when that coroutine has returned. |
| Scheduler.SurvivorsPending | coroutines.js:56-67 | When each report says whether its handle has returned, none of the handles collected as pending has returned. |
| Scheduler.ResumeNext | coroutines.js:59-62 | One iteration of the first loop of `tick` is one `next()` of the handle at position i: it makes that handle's machine step from its state before the call (`StepFrom`), reports whether the handle has returned, and enters that report in the journal. In a registry without duplicates it keeps the earlier reports in agreement with whether their handles have returned. For a `Separate` registry it keeps the earlier handles' steps (`Moved`) and leaves the later handles at their snapshots. |

## Left out

- `startTicking` (coroutines.js:82-89) and the default scheduling function (coroutines.js:93) are left out. They hand a continuation to `requestAnimationFrame` or `process.nextTick`, so the host's event loop drives them. `Tick` is the operation they repeat.
- `generateNewName` (coroutines.js:92) is left out because it draws on `Math.random`. The container's name is a constructor parameter.
- The `perf_hooks` set-up and the default `_clock` (coroutines.js:94-97) read the wall clock. Clocks are parameters (`ClockFn`), and `ClockBinding` is constructed with whatever initial clock the caller supplies.
- Numbers are exact reals and integers, not IEEE doubles. Rounding in `t += delta` and in the interpolation is not modelled.
- Primitives.AnimateDefaultFallsShort: holds in exact arithmetic only. In IEEE doubles the last blend can round to exactly `to` (from 0.5 to 1 with clock readings 0, 1 − 2⁻⁵³, 1, the second write is 1), so the code guarantees neither outcome. The same holds for `AnimateFallsShort`, `AnimateWritesBelow` and `LinearBelow`.
- Exceptions thrown by a user's generator, predicate, clock or interpolation are not modelled. Neither are options objects with missing fields, where the code would call `undefined`.
- JS truthiness is not modelled. The answers of `f` in `waitUntil`/`waitWhile` are booleans, and a caller-written generator's `done` is a boolean.
- `waitFrames` with a non-integer `n` is not modelled; the counter is an integer.
- A coroutine body that calls `start`, `stop` or `stopAll` on its own container during `tick` is not modelled. A resumption may change only clock counters, predicates and animated properties, so the registry is fixed during the first loop of `tick`.
- Caller-written generators are modelled only by when they return (`UserG`, `Coroutine.RunUser`), not by what their bodies do.
- The run lemmas of `Primitives` (`WaitShape`, `GateShape`, `AnimateShape` and the lemmas built on them) describe a coroutine that is the only caller of its clock or predicate. With several coroutines sharing a clock, each resumption still follows `Coroutine.Resume`'s contract, which is stated for any call index.
- Scheduler.Coroutines.Tick: the retirement property (survivors are exactly the pending coroutines, and none has returned) is stated only for a registry without duplicate handles. With duplicates the code does not provide it; the exact resulting registry is still stated.
- Scheduler.Coroutines.Tick: states each handle's step from its state before the tick only for a `Separate` registry. Coroutines may share a clock counter, a predicate or a property (all `wait`s without a clock argument share one `Host`); then only the journal, whose single writer is `Coroutine.Resume`, ties the reports to resumptions, and the effect of each resumption on the outside objects is stated once per call, by `Coroutine.Resume` and `ResumeNext`.
- The `Journal` is a proof-only record of the resumptions made. It has no counterpart in the code. Reading its entries as "one entry per resumption" relies on `Coroutine.Resume` being the only method that writes it; Dafny does not enforce that, and every method of this model keeps to it.
- Scheduler.ResumeEach: states each handle's new position only for a `Separate` registry, and the outside objects' new values only per call, by `Coroutine.Resume` and `ResumeNext`. Otherwise the reports are tied to resumptions by the journal alone, which relies on `Coroutine.Resume` being its only writer.
- Scheduler.ResumeEach: "report done if and only if returned" is stated only for a registry without duplicates. With duplicates, a later resumption of the same generator may change whether it has returned.
