/**
 * The built-in coroutines of coroutines.js (`wait`, `waitFrames`, `waitUntil`,
 * `waitWhile`, `animate`) as explicit resumable state machines.
 *
 * A JS generator body runs only when `next()` is called, up to its next `yield`,
 * so each machine has a "not started" state, one state per suspension point, and
 * an "over" state: once a generator has returned, every later `next()` reports
 * done and runs nothing.
 *
 * The outside world enters through functions of a call index: a clock is a
 * `ClockFn` giving its reading at the k-th clock call, and a predicate is a
 * `nat -> bool` giving its answer at its k-th call. Each step says how many
 * such calls it made, so runs can be threaded through the indices.
 */
module Primitives {

  /** What one resumption (one `next()`) reports: `done` is false or true. */
  datatype Status = Pending | Done

  datatype Option<T> = None | Some(value: T)

  /** One resumption: the state the generator suspends in (or ends in), what
      `next()` reports, and how many calls to the outside function it made. */
  datatype Step<S> = Step(next: S, status: Status, calls: nat)

  /** A clock: its reading, in seconds, at the k-th clock call of the process. */
  type ClockFn = nat -> real

  ghost predicate NonDecreasing(clock: ClockFn)
  {
    forall i: nat, j: nat :: i <= j ==> clock(i) <= clock(j)
  }

  // ---------------------------------------------------------------------------
  // wait(seconds, clock)
  // ---------------------------------------------------------------------------

  /** `WaitFresh`: created, body not yet run; `Waiting(startTime)`: suspended at
      the `yield` inside the loop; `WaitOver`: returned. */
  datatype WaitState = WaitFresh | Waiting(startTime: real) | WaitOver

  /** One resumption of `wait`, whose next clock call is the k-th. The first one
      reads `startTime` and then tests the loop condition with a second reading. */
  function WaitResume(seconds: real, s: WaitState, clock: ClockFn, k: nat): (r: Step<WaitState>)
    ensures r.status == Done <==> r.next == WaitOver
    ensures s.WaitOver? ==> r.calls == 0
    ensures r.status == Pending ==> r.next.Waiting? && (s.Waiting? ==> r.next == s)
  {
    match s
    case WaitFresh =>
      var startTime := clock(k);
      if clock(k + 1) - startTime < seconds then Step(Waiting(startTime), Pending, 2)
      else Step(WaitOver, Done, 2)
    case Waiting(startTime) =>
      if clock(k) - startTime < seconds then Step(s, Pending, 1)
      else Step(WaitOver, Done, 1)
    case WaitOver =>
      Step(WaitOver, Done, 0)
  }

  /** State and number of clock calls after `n` resumptions of a fresh `wait`
      that is the only reader of `clock`. */
  function WaitAfter(seconds: real, clock: ClockFn, n: nat): (WaitState, nat)
  {
    if n == 0 then (WaitFresh, 0)
    else
      var (s, k) := WaitAfter(seconds, clock, n - 1);
      var r := WaitResume(seconds, s, clock, k);
      (r.next, k + r.calls)
  }

  /** What resumption number `n` (counting from 0) of that `wait` reports. */
  function WaitReport(seconds: real, clock: ClockFn, n: nat): Status
  {
    var (s, k) := WaitAfter(seconds, clock, n);
    WaitResume(seconds, s, clock, k).status
  }

  /** The time elapsed since `startTime` as resumption `j` measures it: the first
      resumption reads calls 0 (the start time) and 1, resumption j reads j + 1. */
  function Elapsed(clock: ClockFn, j: nat): real
  {
    clock(j + 1) - clock(0)
  }

  /** While `wait` has not completed, it is suspended with the reading taken by
      the first clock call of its first resumption as its start time; nothing is
      read at construction. Once one measured elapsed time reaches `seconds`
      it is over. */
  lemma {:induction false} WaitShape(seconds: real, clock: ClockFn, n: nat)
    ensures n == 0 ==> WaitAfter(seconds, clock, n) == (WaitFresh, 0)
    ensures n > 0 && (forall j: nat :: j < n ==> Elapsed(clock, j) < seconds) ==>
      WaitAfter(seconds, clock, n) == (Waiting(clock(0)), n + 1)
    ensures !(forall j: nat :: j < n ==> Elapsed(clock, j) < seconds) ==>
      WaitAfter(seconds, clock, n).0 == WaitOver
  {
    if n > 0 {
      WaitShape(seconds, clock, n - 1);
      if forall j: nat :: j < n - 1 ==> Elapsed(clock, j) < seconds {
        WaitNextResume(seconds, clock, n - 1);
        if Elapsed(clock, n - 1) >= seconds {
          assert WaitAfter(seconds, clock, n).0 == WaitOver;
        }
      } else {
        assert WaitAfter(seconds, clock, n - 1).0 == WaitOver;
        var j: nat :| j < n - 1 && Elapsed(clock, j) >= seconds;
      }
    }
  }

  /** The resumption after n undisturbed ones measures `Elapsed(clock, n)`. */
  lemma WaitNextResume(seconds: real, clock: ClockFn, n: nat)
    requires n == 0 ==> WaitAfter(seconds, clock, n) == (WaitFresh, 0)
    requires n > 0 ==> WaitAfter(seconds, clock, n) == (Waiting(clock(0)), n + 1)
    ensures var (s, k) := WaitAfter(seconds, clock, n);
      var r := WaitResume(seconds, s, clock, k);
      (r.status == Pending <==> Elapsed(clock, n) < seconds) &&
      (r.status == Pending ==> (r.next, k + r.calls) == (Waiting(clock(0)), n + 2))
  {
  }

  /** A resumption of `wait` is pending exactly when every elapsed time measured
      so far, its own included, is below `seconds`. */
  lemma WaitReportIff(seconds: real, clock: ClockFn, n: nat)
    ensures WaitReport(seconds, clock, n) == Pending <==>
      forall j: nat :: j <= n ==> Elapsed(clock, j) < seconds
  {
    WaitShape(seconds, clock, n);
    if forall j: nat :: j < n ==> Elapsed(clock, j) < seconds {
      WaitNextResume(seconds, clock, n);
    } else {
      var j: nat :| j < n && Elapsed(clock, j) >= seconds;
    }
  }

  /** With a non-decreasing clock, resumption `n` is pending exactly when the
      current reading minus the start time is below `seconds`. */
  lemma WaitReportMonotone(seconds: real, clock: ClockFn, n: nat)
    requires NonDecreasing(clock)
    ensures WaitReport(seconds, clock, n) == Pending <==> Elapsed(clock, n) < seconds
  {
    WaitReportIff(seconds, clock, n);
    if Elapsed(clock, n) < seconds {
      forall j: nat | j <= n ensures Elapsed(clock, j) < seconds {
        assert clock(j + 1) <= clock(n + 1);
      }
    }
  }

  /** With a non-decreasing clock, a non-positive duration completes on the
      first resumption. */
  lemma WaitNonPositive(seconds: real, clock: ClockFn)
    requires NonDecreasing(clock) && seconds <= 0.0
    ensures WaitReport(seconds, clock, 0) == Done
  {
    WaitReportMonotone(seconds, clock, 0);
    assert clock(0) <= clock(1);
  }

  // ---------------------------------------------------------------------------
  // waitFrames(n)
  // ---------------------------------------------------------------------------

  /** `Counting(n)`: the value of the counter before the next `n-- > 0` test
      (the body has not run yet, or it is suspended at the `yield`). */
  datatype FramesState = Counting(n: int) | FramesOver

  /** One resumption of `waitFrames`: the test compares the counter's value
      before the decrement. */
  function FramesResume(s: FramesState): (r: Step<FramesState>)
    ensures r.status == Done <==> r.next == FramesOver
    ensures r.calls == 0
  {
    match s
    case Counting(n) =>
      if n > 0 then Step(Counting(n - 1), Pending, 0) else Step(FramesOver, Done, 0)
    case FramesOver =>
      Step(FramesOver, Done, 0)
  }

  /** State after `j` resumptions of `waitFrames(n)`. */
  function FramesAfter(n: int, j: nat): FramesState
  {
    if j == 0 then Counting(n) else FramesResume(FramesAfter(n, j - 1)).next
  }

  /** What resumption number `j` (counting from 0) of `waitFrames(n)` reports. */
  function FramesReport(n: int, j: nat): Status
  {
    FramesResume(FramesAfter(n, j)).status
  }

  lemma {:induction false} FramesShape(n: int, j: nat)
    ensures FramesAfter(n, j) == if j == 0 || j <= n then Counting(n - j) else FramesOver
  {
    if j > 0 {
      FramesShape(n, j - 1);
    }
  }

  /** `waitFrames(n)` is pending on exactly its first n resumptions: with n >= 0
      it is done on resumption n + 1, and with n <= 0 on the first one. */
  lemma FramesReportIff(n: int, j: nat)
    ensures FramesReport(n, j) == Pending <==> j < n
  {
    FramesShape(n, j);
  }

  // ---------------------------------------------------------------------------
  // waitUntil(f) and waitWhile(f)
  // ---------------------------------------------------------------------------

  /** Both loops test `f()` before every `yield`: `Gated` is the state before the
      test (not started, or suspended at the `yield`). */
  datatype GateState = Gated | GateOver

  /** One resumption of a predicate-gated wait whose predicate answers `f(k)` at
      this call: `waitUntil` stops when the answer is true (`stopOn` true),
      `waitWhile` when it is false (`stopOn` false). */
  function GateResume(stopOn: bool, s: GateState, f: nat -> bool, k: nat): (r: Step<GateState>)
    ensures r.status == Done <==> r.next == GateOver
    ensures r.calls == if s.Gated? then 1 else 0
  {
    match s
    case Gated =>
      if f(k) == stopOn then Step(GateOver, Done, 1) else Step(Gated, Pending, 1)
    case GateOver =>
      Step(GateOver, Done, 0)
  }

  /** State and number of calls of `f` after `n` resumptions, with `f(k)` the
      answer to the k-th call. */
  function GateAfter(stopOn: bool, f: nat -> bool, n: nat): (GateState, nat)
  {
    if n == 0 then (Gated, 0)
    else
      var (s, k) := GateAfter(stopOn, f, n - 1);
      var r := GateResume(stopOn, s, f, k);
      (r.next, k + r.calls)
  }

  function GateReport(stopOn: bool, f: nat -> bool, n: nat): Status
  {
    var (s, k) := GateAfter(stopOn, f, n);
    GateResume(stopOn, s, f, k).status
  }

  /** True when answer `j` of `f` lets the wait go on. */
  predicate Holds(stopOn: bool, f: nat -> bool, j: nat)
  {
    f(j) != stopOn
  }

  /** While every answer so far lets the wait go on, it is gated and `f` has
      been called once per resumption; otherwise it is over. */
  lemma {:induction false} GateShape(stopOn: bool, f: nat -> bool, n: nat)
    ensures (forall j: nat :: j < n ==> Holds(stopOn, f, j)) ==>
      GateAfter(stopOn, f, n) == (Gated, n)
    ensures !(forall j: nat :: j < n ==> Holds(stopOn, f, j)) ==>
      GateAfter(stopOn, f, n).0 == GateOver
  {
    if n > 0 {
      GateShape(stopOn, f, n - 1);
      if forall j: nat :: j < n - 1 ==> Holds(stopOn, f, j) {
        assert GateAfter(stopOn, f, n - 1) == (Gated, n - 1);
        if !Holds(stopOn, f, n - 1) {
          assert GateAfter(stopOn, f, n).0 == GateOver;
        }
      } else {
        assert GateAfter(stopOn, f, n - 1).0 == GateOver;
        var j: nat :| j < n - 1 && !Holds(stopOn, f, j);
      }
    }
  }

  /** A resumption is pending exactly when every answer so far, its own
      included, lets the wait go on: the wait completes on the first
      resumption whose call of `f` stops it. */
  lemma GateReportIff(stopOn: bool, f: nat -> bool, n: nat)
    ensures GateReport(stopOn, f, n) == Pending <==>
      forall j: nat :: j <= n ==> Holds(stopOn, f, j)
  {
    GateShape(stopOn, f, n);
    if !(forall j: nat :: j < n ==> Holds(stopOn, f, j)) {
      var j: nat :| j < n && !Holds(stopOn, f, j);
      assert GateReport(stopOn, f, n) == Done;
    } else {
      assert GateReport(stopOn, f, n) == (if Holds(stopOn, f, n) then Pending else Done);
    }
  }

  /** If answer `m` is the first that stops the wait, `f` has been called
      exactly m + 1 times after any n > m resumptions: once per resumption up
      to the one that completed, and never afterwards. */
  lemma {:induction false} GateStops(stopOn: bool, f: nat -> bool, m: nat, n: nat)
    requires m < n && !Holds(stopOn, f, m)
    requires forall j: nat :: j < m ==> Holds(stopOn, f, j)
    ensures GateAfter(stopOn, f, n) == (GateOver, m + 1)
  {
    if n == m + 1 {
      GateShape(stopOn, f, m);
    } else {
      GateStops(stopOn, f, m, n - 1);
    }
  }

  /** `waitWhile(f)` is `waitUntil` of the negated predicate. */
  lemma {:induction false} WhileIsUntilOfNot(f: nat -> bool, n: nat)
    ensures GateAfter(false, f, n) == GateAfter(true, (j: nat) => !f(j), n)
    ensures GateReport(false, f, n) == GateReport(true, (j: nat) => !f(j), n)
  {
    if n > 0 {
      WhileIsUntilOfNot(f, n - 1);
    }
  }

  // ---------------------------------------------------------------------------
  // animate(obj, prop, to, options)
  // ---------------------------------------------------------------------------

  /** `AnimFresh`: created; `Animating(from, t, lastTime)`: suspended at the
      `yield` with the captured start value, the accumulated progress and the
      last clock reading. */
  datatype AnimState = AnimFresh | Animating(from: real, t: real, lastTime: real) | AnimOver

  /** One resumption of `animate`: the next state, the report, the value it
      writes into the property (if any) and how many clock calls it made. */
  datatype AnimStep = AnimStep(next: AnimState, status: Status, write: Option<real>, calls: nat)

  /** One resumption of `animate` towards `to`, with `ease` the option `map`,
      `blend` the option `interpolate`, `current` the property's value now and
      `k` the index of the next clock call. */
  function AnimateResume(to: real, ease: real -> real, blend: (real, real, real) -> real,
                         s: AnimState, current: real, clock: ClockFn, k: nat): (r: AnimStep)
    ensures r.status == Done <==> r.next == AnimOver
    ensures r.status == Done <==> r.write == None
  {
    match s
    case AnimFresh =>
      var from := current;
      var lastTime := clock(k);
      // the loop test `t < 1` holds with t == 0
      var nowTime := clock(k + 1);
      var delta := nowTime - lastTime;
      AnimStep(Animating(from, 0.0 + delta, nowTime), Pending, Some(blend(from, to, ease(0.0))), 2)
    case Animating(from, t, lastTime) =>
      if t < 1.0 then
        var nowTime := clock(k);
        var delta := nowTime - lastTime;
        AnimStep(Animating(from, t + delta, nowTime), Pending, Some(blend(from, to, ease(t))), 1)
      else
        AnimStep(AnimOver, Done, None, 0)
    case AnimOver =>
      AnimStep(AnimOver, Done, None, 0)
  }

  /** State, property value and clock calls after `n` resumptions of an
      `animate` that is the only reader of `clock` and the only writer of the
      property, whose value was `v0` before the first resumption. */
  function AnimateAfter(to: real, ease: real -> real, blend: (real, real, real) -> real,
                        v0: real, clock: ClockFn, n: nat): (AnimState, real, nat)
  {
    if n == 0 then (AnimFresh, v0, 0)
    else
      var (s, v, k) := AnimateAfter(to, ease, blend, v0, clock, n - 1);
      var r := AnimateResume(to, ease, blend, s, v, clock, k);
      (r.next, if r.write.Some? then r.write.value else v, k + r.calls)
  }

  /** What resumption number `n` (counting from 0) does. */
  function AnimateStepAt(to: real, ease: real -> real, blend: (real, real, real) -> real,
                         v0: real, clock: ClockFn, n: nat): AnimStep
  {
    var (s, v, k) := AnimateAfter(to, ease, blend, v0, clock, n);
    AnimateResume(to, ease, blend, s, v, clock, k)
  }

  /** The progress `t` at the start of resumption `j`: 0 before the first, and
      afterwards the reading of clock call j minus the first reading. */
  function Progress(clock: ClockFn, j: nat): real
  {
    if j == 0 then 0.0 else clock(j) - clock(0)
  }

  /** The first resumption of `animate` reads the clock twice and writes
      `blend(v0, to, ease(0))`. */
  lemma AnimateFirstStep(to: real, ease: real -> real, blend: (real, real, real) -> real,
                         v0: real, clock: ClockFn)
    ensures AnimateAfter(to, ease, blend, v0, clock, 1) ==
      (Animating(v0, Progress(clock, 1), clock(1)), blend(v0, to, ease(Progress(clock, 0))), 2)
  {
    assert AnimateAfter(to, ease, blend, v0, clock, 0) == (AnimFresh, v0, 0);
  }

  /** A resumption that finds the progress below 1 advances it to the next
      clock reading and writes the blend for the old progress. */
  lemma AnimateRunningStep(to: real, ease: real -> real, blend: (real, real, real) -> real,
                           v0: real, clock: ClockFn, m: nat)
    requires m > 0 && Progress(clock, m) < 1.0
    requires AnimateAfter(to, ease, blend, v0, clock, m).0 == Animating(v0, Progress(clock, m), clock(m))
    requires AnimateAfter(to, ease, blend, v0, clock, m).2 == m + 1
    ensures AnimateAfter(to, ease, blend, v0, clock, m + 1) ==
      (Animating(v0, Progress(clock, m + 1), clock(m + 1)), blend(v0, to, ease(Progress(clock, m))), m + 2)
  {
    var (s, v, k) := AnimateAfter(to, ease, blend, v0, clock, m);
    var r := AnimateResume(to, ease, blend, s, v, clock, k);
    assert r.next == Animating(v0, Progress(clock, m) + (clock(m + 1) - clock(m)), clock(m + 1));
    assert Progress(clock, m) + (clock(m + 1) - clock(m)) == Progress(clock, m + 1);
  }

  /** The progress values seen by resumptions 0 .. n - 1 are all below 1. */
  ghost predicate Running(clock: ClockFn, n: nat)
  {
    forall j: nat :: j < n ==> Progress(clock, j) < 1.0
  }

  lemma RunningNext(clock: ClockFn, n: nat)
    ensures Running(clock, n + 1) <==> Running(clock, n) && Progress(clock, n) < 1.0
  {
    if Running(clock, n) && Progress(clock, n) < 1.0 {
      forall j: nat | j < n + 1 ensures Progress(clock, j) < 1.0 {
        if j < n { assert Running(clock, n); }
      }
    }
  }

  /** `animate` keeps `from` equal to the value found at the first resumption
      and `t == lastTime - clock(0)`, in exact arithmetic, while every
      progress so far is below 1; once one is not, it has returned. */
  lemma {:induction false} AnimateShape(to: real, ease: real -> real, blend: (real, real, real) -> real,
                                        v0: real, clock: ClockFn, n: nat)
    ensures n == 0 ==> AnimateAfter(to, ease, blend, v0, clock, n) == (AnimFresh, v0, 0)
    ensures n > 0 && Running(clock, n) ==>
      AnimateAfter(to, ease, blend, v0, clock, n) ==
        (Animating(v0, Progress(clock, n), clock(n)), blend(v0, to, ease(Progress(clock, n - 1))), n + 1)
    ensures !Running(clock, n) ==> AnimateAfter(to, ease, blend, v0, clock, n).0 == AnimOver
  {
    if n > 0 {
      AnimateShape(to, ease, blend, v0, clock, n - 1);
      RunningNext(clock, n - 1);
      if Running(clock, n) {
        if n == 1 {
          AnimateFirstStep(to, ease, blend, v0, clock);
        } else {
          AnimateRunningStep(to, ease, blend, v0, clock, n - 1);
        }
      } else if Running(clock, n - 1) {
        var (s, v, k) := AnimateAfter(to, ease, blend, v0, clock, n - 1);
        assert s.Animating? && !(s.t < 1.0);
      } else {
        assert AnimateAfter(to, ease, blend, v0, clock, n - 1).0 == AnimOver;
      }
    }
  }

  /** Resumption `n` is pending and writes `blend(v0, to, ease(t))` for the
      current progress `t` exactly when every progress so far is below 1;
      otherwise it completes without writing. The first resumption always
      writes `blend(v0, to, ease(0))`. */
  lemma AnimateStepIff(to: real, ease: real -> real, blend: (real, real, real) -> real,
                       v0: real, clock: ClockFn, n: nat)
    ensures var r := AnimateStepAt(to, ease, blend, v0, clock, n);
      && (r.status == Pending <==> Running(clock, n + 1))
      && (r.status == Pending ==> r.write == Some(blend(v0, to, ease(Progress(clock, n)))))
      && (r.status == Done ==> r.write == None)
    ensures AnimateStepAt(to, ease, blend, v0, clock, 0).write == Some(blend(v0, to, ease(0.0)))
  {
    AnimateShape(to, ease, blend, v0, clock, n);
    AnimateShape(to, ease, blend, v0, clock, 0);
    RunningNext(clock, n);
    var (s, v, k) := AnimateAfter(to, ease, blend, v0, clock, n);
    if !Running(clock, n) {
      assert s == AnimOver;
    } else if n > 0 {
      assert s == Animating(v0, Progress(clock, n), clock(n));
    }
  }

  /** With a non-decreasing clock every argument `animate` passes to `ease`
      lies in [0, 1). */
  lemma AnimateEaseArgument(to: real, ease: real -> real, blend: (real, real, real) -> real,
                            v0: real, clock: ClockFn, n: nat)
    requires NonDecreasing(clock)
    requires AnimateStepAt(to, ease, blend, v0, clock, n).status == Pending
    ensures 0.0 <= Progress(clock, n) < 1.0
  {
    AnimateStepIff(to, ease, blend, v0, clock, n);
    assert clock(0) <= clock(n);
  }

  /** The default `map` option. */
  function Identity(x: real): real
  {
    x
  }

  /** The default `interpolate` option: `b * t + a * (1 - t)`. */
  function Linear(a: real, b: real, t: real): real
  {
    b * t + a * (1.0 - t)
  }

  lemma MulPositive(x: real, y: real)
    requires x > 0.0 && y > 0.0
    ensures x * y > 0.0
  {
  }

  /** The property's value after resumption n + 1: what that resumption wrote,
      or the value it found when it wrote nothing. */
  lemma AnimateValueAfter(to: real, ease: real -> real, blend: (real, real, real) -> real,
                          v0: real, clock: ClockFn, n: nat)
    ensures var r := AnimateStepAt(to, ease, blend, v0, clock, n);
      AnimateAfter(to, ease, blend, v0, clock, n + 1).1 ==
        if r.write.Some? then r.write.value else AnimateAfter(to, ease, blend, v0, clock, n).1
  {
  }

  /** The default blend stays below `b` for any progress below 1 when a < b,
      a negative progress included. */
  lemma LinearBelow(a: real, b: real, t: real)
    requires a < b && t < 1.0
    ensures Linear(a, b, t) < b
  {
    var u := 1.0 - t;
    MulPositive(b - a, u);
    calc {
      Linear(a, b, t);
      b * t + a * u;
      { assert t == 1.0 - u; }
      b * (1.0 - u) + a * u;
      b - b * u + a * u;
      b - (b - a) * u;
    }
  }

  /** A blend that, moving from `a` up to `b`, stays below `b` for every
      progress in [0, 1). */
  ghost predicate StaysBelow(blend: (real, real, real) -> real)
  {
    forall a: real, b: real, t: real :: a < b && 0.0 <= t < 1.0 ==> blend(a, b, t) < b
  }

  /** An easing map that sends [0, 1) into [0, 1). */
  ghost predicate KeepsUnit(ease: real -> real)
  {
    forall t: real :: 0.0 <= t < 1.0 ==> 0.0 <= ease(t) < 1.0
  }

  /** The default options have both properties. */
  lemma DefaultsStayBelow()
    ensures KeepsUnit(Identity) && StaysBelow(Linear)
  {
    forall a: real, b: real, t: real | a < b && 0.0 <= t < 1.0
      ensures Linear(a, b, t) < b
    {
      LinearBelow(a, b, t);
    }
  }

  /** With a non-decreasing clock and a start value below `to`, every value
      `animate` writes is below `to` when the options keep below `to`. */
  lemma AnimateWritesBelow(to: real, ease: real -> real, blend: (real, real, real) -> real,
                           v0: real, clock: ClockFn, n: nat)
    requires NonDecreasing(clock) && v0 < to && KeepsUnit(ease) && StaysBelow(blend)
    requires AnimateStepAt(to, ease, blend, v0, clock, n).status == Pending
    ensures AnimateStepAt(to, ease, blend, v0, clock, n).write.Some?
    ensures AnimateStepAt(to, ease, blend, v0, clock, n).write.value < to
  {
    AnimateEaseArgument(to, ease, blend, v0, clock, n);
    AnimateStepIff(to, ease, blend, v0, clock, n);
    var e := ease(Progress(clock, n));
    assert 0.0 <= e < 1.0;
    assert blend(v0, to, e) < to;
  }

  /** One resumption keeps the property below `to`: it either writes a value
      below `to` or leaves the property alone. */
  lemma AnimateBelowStep(to: real, ease: real -> real, blend: (real, real, real) -> real,
                         v0: real, clock: ClockFn, n: nat)
    requires NonDecreasing(clock) && v0 < to && KeepsUnit(ease) && StaysBelow(blend)
    requires AnimateAfter(to, ease, blend, v0, clock, n).1 < to
    ensures AnimateAfter(to, ease, blend, v0, clock, n + 1).1 < to
  {
    var r := AnimateStepAt(to, ease, blend, v0, clock, n);
    AnimateValueAfter(to, ease, blend, v0, clock, n);
    if r.status == Pending {
      AnimateWritesBelow(to, ease, blend, v0, clock, n);
    }
  }

  /** With a non-decreasing clock, a start value below `to` and options that
      keep below `to`, the property stays strictly below `to` however many
      resumptions run: the last write uses a progress below 1. */
  lemma {:induction false} AnimateFallsShort(to: real, ease: real -> real, blend: (real, real, real) -> real,
                                             v0: real, clock: ClockFn, n: nat)
    requires NonDecreasing(clock) && v0 < to && KeepsUnit(ease) && StaysBelow(blend)
    ensures AnimateAfter(to, ease, blend, v0, clock, n).1 < to
  {
    if n > 0 {
      AnimateFallsShort(to, ease, blend, v0, clock, n - 1);
      AnimateBelowStep(to, ease, blend, v0, clock, n - 1);
    }
  }

  /** One resumption with the default options keeps the property below `to`,
      whatever the clock reads. */
  lemma AnimateDefaultBelowStep(to: real, v0: real, clock: ClockFn, n: nat)
    requires v0 < to && AnimateAfter(to, Identity, Linear, v0, clock, n).1 < to
    ensures AnimateAfter(to, Identity, Linear, v0, clock, n + 1).1 < to
  {
    var r := AnimateStepAt(to, Identity, Linear, v0, clock, n);
    AnimateValueAfter(to, Identity, Linear, v0, clock, n);
    if r.status == Pending {
      var t := Progress(clock, n);
      assert r.write == Some(Linear(v0, to, t)) && t < 1.0 by {
        AnimateStepIff(to, Identity, Linear, v0, clock, n);
        RunningNext(clock, n);
      }
      LinearBelow(v0, to, t);
    }
  }

  /** With the default options (the identity map and the linear blend), the
      property never reaches `to` from below, whatever the clock reads:
      every write uses a progress below 1, and in exact arithmetic the
      linear blend stays below `to` there. In IEEE doubles the blend can
      round up to `to` exactly, so the code guarantees neither outcome. */
  lemma {:induction false} AnimateDefaultFallsShort(to: real, v0: real, clock: ClockFn, n: nat)
    requires v0 < to
    ensures AnimateAfter(to, Identity, Linear, v0, clock, n).1 < to
  {
    if n > 0 {
      AnimateDefaultFallsShort(to, v0, clock, n - 1);
      AnimateDefaultBelowStep(to, v0, clock, n - 1);
    }
  }
}
