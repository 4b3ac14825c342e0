/**
 * The `Coroutines` container of coroutines.js, the coroutine objects it
 * resumes, and the process-wide `_clock` binding that `setClock` rebinds.
 *
 * Every resumption goes through a `Coroutine` object (JS identity is object
 * identity); its `Resume` runs the generator body imperatively up to its next
 * `yield` and is proved to agree with the pure machines of `Primitives`.
 */
module Scheduler {
  import opened Primitives
  import opened Registry

  /** The process's clock calls. A clock function gives its reading at the k-th
      clock call of the process, whichever clock function is called. */
  class Host {
    var clockCalls: nat

    constructor ()
      ensures clockCalls == 0
    {
      clockCalls := 0;
    }

    /** Calls the clock function `clock` once. */
    method Read(clock: ClockFn) returns (t: real)
      modifies this
      ensures t == clock(old(clockCalls)) && clockCalls == old(clockCalls) + 1
    {
      t := clock(clockCalls);
      clockCalls := clockCalls + 1;
    }
  }

  /** The module-level `_clock` binding. */
  class ClockBinding {
    var clock: ClockFn

    constructor (initial: ClockFn)
      ensures clock == initial
    {
      clock := initial;
    }

    /** `setClock(f)`: later reads of the binding see `f`; values already read
        are kept as they are. */
    method SetClock(f: ClockFn)
      modifies this
      ensures clock == f
    {
      clock := f;
    }
  }

  /** A predicate `f` passed to `waitUntil` or `waitWhile`: its answer at its
      k-th call. */
  class Predicate {
    const answer: nat -> bool
    var calls: nat

    constructor (answer: nat -> bool)
      ensures this.answer == answer && calls == 0
    {
      this.answer := answer;
      calls := 0;
    }

    method Call() returns (b: bool)
      modifies this
      ensures b == answer(old(calls)) && calls == old(calls) + 1
    {
      b := answer(calls);
      calls := calls + 1;
    }
  }

  /** The property `obj[prop]` that `animate` writes. */
  class Cell {
    var value: real

    constructor (value: real)
      ensures this.value == value
    {
      this.value := value;
    }
  }

  /** A record, for the proofs, of every `next()` made: which handle was
      resumed and what it reported, in order. Only `Coroutine.Resume`
      extends it; this is a convention of the model that Dafny does not
      enforce, and the per-handle steps of `Separate` registries
      (`Resumed`) do not depend on it. */
  class Journal {
    ghost var entries: seq<(Coroutine, bool)>

    constructor ()
      ensures entries == []
    {
      entries := [];
    }
  }

  /** The generator function behind a coroutine handle, with the arguments it
      was called with. A generator the caller wrote is opaque: `script(k)`
      says whether its k-th resumption returns. */
  datatype Generator =
    | WaitG(host: Host, clock: ClockFn, seconds: real)
    | FramesG(n: int)
    | UntilG(f: Predicate)
    | WhileG(f: Predicate)
    | AnimateG(host: Host, binding: ClockBinding, target: Cell, to: real,
               ease: real -> real, blend: (real, real, real) -> real)
    | UserG(script: nat -> bool)
  {
    /** The objects outside the handle that a resumption may change: clock
        counters, predicates and animated properties, never a handle or a
        container. */
    ghost function Objects(): (r: set<object>)
      ensures forall o :: o in r ==> o is Host || o is Predicate || o is Cell
    {
      match this
      case WaitG(host, _, _) => {host}
      case FramesG(_) => {}
      case UntilG(f) => {f}
      case WhileG(f) => {f}
      case AnimateG(host, _, target, _, _, _) => {host, target}
      case UserG(_) => {}
    }

    /** The clock a `wait` reads; other kinds read none of their own. */
    function Fixed(): ClockFn
    {
      if WaitG? then clock else (_ => 0.0)
    }

    /** The objects outside the handle that a resumption reads: those it may
        change and, for `animate`, the `_clock` binding. */
    ghost function Reads(): (r: set<object>)
      ensures Objects() <= r
      ensures forall o :: o in r ==> o is Host || o is Predicate || o is Cell || o is ClockBinding
    {
      match this
      case AnimateG(host, binding, target, _, _, _) => {host, binding, target}
      case _ => Objects()
    }
  }

  /** What a resumption of a handle starts from: where the body is
      suspended, the clock calls made so far, the calls of its predicate,
      the value of its animated property and the function bound to
      `_clock`. A part a kind does not use is 0. */
  datatype Snapshot = Snapshot(at: Position, clockCalls: nat, calls: nat, value: real, clock: ClockFn)

  /** Where a generator body is suspended. Each kind of body uses one part:
      `wait`, `frames`, `anim`, or `gate` for `waitUntil`, `waitWhile` and
      caller-written generators, whose resumptions `resumes` counts. The
      parts of the other kinds are never read. */
  datatype Position = Position(wait: WaitState, frames: FramesState, gate: GateState,
                               anim: AnimState, resumes: nat)

  /** Where a body of kind `gen` starts: none of it has run yet. */
  function Entry(gen: Generator): (at: Position)
    ensures Unstarted(gen, at)
  {
    Position(WaitFresh, Counting(if gen.FramesG? then gen.n else 0), Gated, AnimFresh, 0)
  }

  /** A body of kind `gen` at `at` has not started. */
  predicate Unstarted(gen: Generator, at: Position)
  {
    match gen
    case WaitG(_, _, _) => at.wait == WaitFresh
    case FramesG(n) => at.frames == Counting(n)
    case AnimateG(_, _, _, _, _, _) => at.anim == AnimFresh
    case UserG(_) => at.gate == Gated && at.resumes == 0
    case _ => at.gate == Gated
  }

  /** A body of kind `gen` at `at` has returned. */
  predicate Returned(gen: Generator, at: Position)
  {
    match gen
    case WaitG(_, _, _) => at.wait == WaitOver
    case FramesG(_) => at.frames == FramesOver
    case AnimateG(_, _, _, _, _, _) => at.anim == AnimOver
    case _ => at.gate == GateOver
  }

  /** A coroutine handle: a JS generator object. `gen` is fixed when the
      generator is made; `at` is where its body is suspended. */
  class Coroutine {
    const gen: Generator
    var at: Position

    /** Calling the generator function: none of its body has run yet. */
    constructor (gen: Generator)
      ensures this.gen == gen && Unstarted(gen, at)
    {
      this.gen := gen;
      at := Entry(gen);
    }

    /** The generator has returned. */
    predicate Over()
      reads this
    {
      Returned(gen, at)
    }

    /** The state a resumption of this handle starts from. */
    ghost function Snap(): Snapshot
      reads this, gen.Reads()
    {
      Snapshot(at,
               if gen.WaitG? || gen.AnimateG? then gen.host.clockCalls else 0,
               if gen.UntilG? || gen.WhileG? then gen.f.calls else 0,
               if gen.AnimateG? then gen.target.value else 0.0,
               if gen.AnimateG? then gen.binding.clock else gen.Fixed())
    }

    /** The handle's own part of one resumption from `before`, as its
        machine in `Primitives` describes it: the new suspension point and
        the `done` report. */
    ghost predicate Moved(before: Snapshot, done: bool)
      reads this
    {
      match gen
      case WaitG(_, clock, seconds) =>
        var r := WaitResume(seconds, before.at.wait, clock, before.clockCalls);
        at == before.at.(wait := r.next) && done == (r.status == Done)
      case FramesG(_) =>
        var r := FramesResume(before.at.frames);
        at == before.at.(frames := r.next) && done == (r.status == Done)
      case UntilG(f) =>
        var r := GateResume(true, before.at.gate, f.answer, before.calls);
        at == before.at.(gate := r.next) && done == (r.status == Done)
      case WhileG(f) =>
        var r := GateResume(false, before.at.gate, f.answer, before.calls);
        at == before.at.(gate := r.next) && done == (r.status == Done)
      case AnimateG(_, _, _, to, ease, blend) =>
        var r := AnimateResume(to, ease, blend, before.at.anim, before.value, before.clock, before.clockCalls);
        at == before.at.(anim := r.next) && done == (r.status == Done)
      case UserG(script) =>
        var r := GateResume(true, before.at.gate, script, before.at.resumes);
        at == before.at.(gate := r.next, resumes := before.at.resumes + r.calls) && done == (r.status == Done)
    }

    /** The handle's state is one resumption of its body from `before`: it
        has `Moved`, and the clock or predicate calls made and the value
        written into the property are those of its machine. */
    ghost predicate StepFrom(before: Snapshot, done: bool)
      reads this, gen.Reads()
    {
      && Moved(before, done)
      && (gen.WaitG? ==>
        var r := WaitResume(gen.seconds, before.at.wait, gen.clock, before.clockCalls);
        gen.host.clockCalls == before.clockCalls + r.calls)
      && (gen.UntilG? || gen.WhileG? ==>
        var r := GateResume(gen.UntilG?, before.at.gate, gen.f.answer, before.calls);
        gen.f.calls == before.calls + r.calls)
      && (gen.AnimateG? ==>
        var r := AnimateResume(gen.to, gen.ease, gen.blend, before.at.anim, before.value,
                               before.clock, before.clockCalls);
        && gen.host.clockCalls == before.clockCalls + r.calls
        && gen.target.value == (if r.write.Some? then r.write.value else before.value)
        && gen.binding.clock == before.clock)
    }

    /** `next()`: runs the generator to its next `yield` or to its end and
        reports `done`; a generator that has returned runs nothing. The
        resumption and its report are entered in `journal`. */
    method Resume(ghost journal: Journal) returns (done: bool)
      modifies this, gen.Objects(), journal
      ensures done == Over()
      ensures old(Over()) ==> done
      ensures StepFrom(old(Snap()), done)
      ensures journal.entries == old(journal.entries) + [(this, done)]
    {
      match gen {
        case WaitG(_, _, _) => done := RunWait();
        case FramesG(_) => done := RunFrames();
        case UntilG(_) => done := RunGate(true);
        case WhileG(_) => done := RunGate(false);
        case AnimateG(_, _, _, _, _, _) => done := RunAnimate();
        case UserG(_) => done := RunUser();
      }
      journal.entries := journal.entries + [(this, done)];
    }

    /** The body of `wait`, from where it is suspended to its next `yield`
        or its end. */
    method RunWait() returns (done: bool)
      requires gen.WaitG?
      modifies this, gen.host
      ensures done == Over()
      ensures var r := WaitResume(gen.seconds, old(at).wait, gen.clock, old(gen.host.clockCalls));
        && at == old(at).(wait := r.next)
        && gen.host.clockCalls == old(gen.host.clockCalls) + r.calls
        && done == (r.status == Done)
    {
      var host, clock, seconds := gen.host, gen.clock, gen.seconds;
      match at.wait {
        case WaitFresh =>
          var startTime := host.Read(clock);
          var now := host.Read(clock);
          if now - startTime < seconds {
            at := at.(wait := Waiting(startTime));
            done := false;
          } else {
            at := at.(wait := WaitOver);
            done := true;
          }
        case Waiting(startTime) =>
          var now := host.Read(clock);
          if now - startTime < seconds {
            done := false;
          } else {
            at := at.(wait := WaitOver);
            done := true;
          }
        case WaitOver =>
          done := true;
      }
    }

    /** The body of `waitFrames`. */
    method RunFrames() returns (done: bool)
      requires gen.FramesG?
      modifies this
      ensures done == Over()
      ensures var r := FramesResume(old(at).frames);
        at == old(at).(frames := r.next) && done == (r.status == Done)
    {
      match at.frames {
        case Counting(n) =>
          if n > 0 {
            at := at.(frames := Counting(n - 1));
            done := false;
          } else {
            at := at.(frames := FramesOver);
            done := true;
          }
        case FramesOver =>
          done := true;
      }
    }

    /** The body of `waitUntil` (`stopOn` true) or `waitWhile` (`stopOn`
        false): it returns once `f()` answers `stopOn`. */
    method RunGate(stopOn: bool) returns (done: bool)
      requires gen.UntilG? || gen.WhileG?
      requires stopOn == gen.UntilG?
      modifies this, gen.f
      ensures done == Over()
      ensures var r := GateResume(stopOn, old(at).gate, gen.f.answer, old(gen.f.calls));
        && at == old(at).(gate := r.next)
        && gen.f.calls == old(gen.f.calls) + r.calls
        && done == (r.status == Done)
    {
      if at.gate == Gated {
        var b := gen.f.Call();
        if b == stopOn {
          at := at.(gate := GateOver);
        }
        done := b == stopOn;
      } else {
        done := true;
      }
    }

    /** The body of `animate`: every clock read goes to the `_clock`
        binding as it is now. */
    method RunAnimate() returns (done: bool)
      requires gen.AnimateG?
      modifies this, gen.host, gen.target
      ensures done == Over()
      ensures var r := AnimateResume(gen.to, gen.ease, gen.blend, old(at).anim, old(gen.target.value),
                                     old(gen.binding.clock), old(gen.host.clockCalls));
        && at == old(at).(anim := r.next)
        && gen.host.clockCalls == old(gen.host.clockCalls) + r.calls
        && gen.target.value == (if r.write.Some? then r.write.value else old(gen.target.value))
        && done == (r.status == Done)
    {
      var host, binding, target, to, ease, blend := gen.host, gen.binding, gen.target, gen.to, gen.ease, gen.blend;
      match at.anim {
        case AnimFresh =>
          var from := target.value;
          var t := 0.0;
          var lastTime := host.Read(binding.clock);
          // the loop test `t < 1` holds with t == 0
          var nowTime := host.Read(binding.clock);
          var delta := nowTime - lastTime;
          lastTime := nowTime;
          target.value := blend(from, to, ease(t));
          t := t + delta;
          at := at.(anim := Animating(from, t, lastTime));
          done := false;
        case Animating(from, t, lastTime) =>
          if t < 1.0 {
            var nowTime := host.Read(binding.clock);
            var delta := nowTime - lastTime;
            target.value := blend(from, to, ease(t));
            at := at.(anim := Animating(from, t + delta, nowTime));
            done := false;
          } else {
            at := at.(anim := AnimOver);
            done := true;
          }
        case AnimOver =>
          done := true;
      }
    }

    /** A generator the caller wrote: its k-th resumption returns when
        `script(k)` holds. */
    method RunUser() returns (done: bool)
      requires gen.UserG?
      modifies this
      ensures done == Over()
      ensures var r := GateResume(true, old(at).gate, gen.script, old(at).resumes);
        && at == old(at).(gate := r.next, resumes := old(at).resumes + r.calls)
        && done == (r.status == Done)
    {
      if at.gate == Gated {
        done := gen.script(at.resumes);
        at := at.(resumes := at.resumes + 1);
        if done {
          at := at.(gate := GateOver);
        }
      } else {
        done := true;
      }
    }
  }

  /** `wait(seconds, clock)`: without a `clock` argument the generator keeps
      the function bound to `_clock` when it is created, so a later
      `setClock` does not reach it. */
  method Wait(host: Host, binding: ClockBinding, seconds: real, clock: Option<ClockFn>) returns (c: Coroutine)
    ensures fresh(c) && Unstarted(c.gen, c.at)
    ensures c.gen == WaitG(host, if clock.Some? then clock.value else binding.clock, seconds)
  {
    var f := if clock.Some? then clock.value else binding.clock;
    c := new Coroutine(WaitG(host, f, seconds));
  }

  /** `waitFrames(n)`. */
  method WaitFrames(n: int) returns (c: Coroutine)
    ensures fresh(c) && Unstarted(c.gen, c.at) && c.gen == FramesG(n)
  {
    c := new Coroutine(FramesG(n));
  }

  /** `waitUntil(f)`. */
  method WaitUntil(f: Predicate) returns (c: Coroutine)
    ensures fresh(c) && Unstarted(c.gen, c.at) && c.gen == UntilG(f)
  {
    c := new Coroutine(UntilG(f));
  }

  /** `waitWhile(f)`. */
  method WaitWhile(f: Predicate) returns (c: Coroutine)
    ensures fresh(c) && Unstarted(c.gen, c.at) && c.gen == WhileG(f)
  {
    c := new Coroutine(WhileG(f));
  }

  /** The `options` of `animate`: `easing` is the option `map`. Its `clock` is accepted and never read. */
  datatype AnimateOptions = AnimateOptions(clock: ClockFn, easing: real -> real, interpolate: (real, real, real) -> real)

  /** `animate(obj, prop, to, options)`: without options, the identity map and
      the linear blend; every clock read goes to the `_clock` binding as it is
      at that moment, whatever `options.clock` says. */
  method Animate(host: Host, binding: ClockBinding, target: Cell, to: real, options: Option<AnimateOptions>)
    returns (c: Coroutine)
    ensures fresh(c) && Unstarted(c.gen, c.at)
    ensures c.gen == AnimateG(host, binding, target, to,
                              if options.Some? then options.value.easing else Identity,
                              if options.Some? then options.value.interpolate else Linear)
  {
    var ease := if options.Some? then options.value.easing else Identity;
    var blend := if options.Some? then options.value.interpolate else Linear;
    c := new Coroutine(AnimateG(host, binding, target, to, ease, blend));
  }

  /** What `start` is given: a generator, or a generator function (no `next`),
      whose call makes a new, unstarted generator. */
  datatype Source = Ready(co: Coroutine) | GeneratorFunction(body: Generator)

  /** The `Coroutines` container. */
  class Coroutines {
    var name: string
    var coroutines: seq<Coroutine>
    var active: bool

    constructor (name: string)
      ensures this.name == name && coroutines == [] && active
    {
      this.name := name;
      coroutines := [];
      active := true;
    }

    /** Everything outside the handles that resuming the registered
        coroutines may change. */
    ghost function Footprint(): set<object>
      reads this
    {
      set c, o | c in coroutines && o in c.gen.Objects() :: o
    }

    /** `start(coro)`: appends the generator, or the result of calling the
        generator function, and returns it. */
    method Start(source: Source) returns (c: Coroutine)
      modifies this
      ensures coroutines == old(coroutines) + [c]
      ensures source.Ready? ==> c == source.co
      ensures source.GeneratorFunction? ==> fresh(c) && c.gen == source.body && Unstarted(c.gen, c.at)
      ensures name == old(name) && active == old(active)
    {
      match source {
        case Ready(co) =>
          c := co;
        case GeneratorFunction(body) =>
          c := new Coroutine(body);
      }
      coroutines := coroutines + [c];
    }

    /** `stop(coro)`: `splice(indexOf(coro), 1)`. */
    method Stop(c: Coroutine)
      modifies this
      ensures coroutines == Stopped(old(coroutines), c)
      ensures name == old(name) && active == old(active)
    {
      var i := IndexOf(coroutines, c);
      coroutines := Splice1(coroutines, i);
    }

    /** `stopAll()`. */
    method StopAll()
      modifies this
      ensures coroutines == []
      ensures name == old(name) && active == old(active)
    {
      coroutines := [];
    }

    /** `tick()`: resumes every registered coroutine once, in registry order,
        then removes each one that reported done as `stop` does. The k-th
        resumption is of the k-th registered handle and reports
        `finished[k]`: a handle registered twice is resumed twice.
        Coroutines cannot reach the registry, so it does not change during
        the pass. */
    method Tick(ghost journal: Journal) returns (ghost finished: seq<bool>, ghost before: seq<Snapshot>)
      modifies this, (set c | c in coroutines), Footprint(), journal
      ensures |finished| == |old(coroutines)|
      ensures journal.entries == old(journal.entries) + Zip(old(coroutines), finished)
      ensures coroutines == RemoveEach(old(coroutines), Select(old(coroutines), finished, true))
      ensures old(coroutines) == [] ==> coroutines == [] && journal.entries == old(journal.entries)
      ensures NoDup(old(coroutines)) ==>
        && (forall i :: 0 <= i < |finished| ==> (finished[i] <==> old(coroutines)[i].Over()))
        && coroutines == Select(old(coroutines), finished, false)
        && NoDup(coroutines)
        && (forall c :: c in coroutines ==> !c.Over())
      ensures |before| == |old(coroutines)|
      ensures forall i :: 0 <= i < |before| ==> before[i] == old(coroutines[i].Snap())
      ensures Separate(old(coroutines)) ==> Resumed(old(coroutines), before, finished)
      ensures name == old(name) && active == old(active)
    {
      var cs := coroutines;
      var toRemove;
      finished, toRemove, before := ResumeEach(cs, journal);
      assert coroutines == cs;
      StopEach(toRemove);
      assert coroutines == RemoveEach(cs, toRemove);
      if NoDup(cs) {
        RetireKeepsPending(cs, finished);
        SurvivorsPending(cs, finished);
      }
    }

    /** The second pass of `tick()`: stops each handle of `xs` in turn. */
    method StopEach(xs: seq<Coroutine>)
      modifies this
      ensures coroutines == RemoveEach(old(coroutines), xs)
      ensures name == old(name) && active == old(active)
    {
      for j := 0 to |xs|
        invariant coroutines == RemoveEach(old(coroutines), xs[..j])
        invariant name == old(name) && active == old(active)
      {
        assert xs[..j + 1][..j] == xs[..j];
        Stop(xs[j]);
      }
      assert xs[..|xs|] == xs;
    }
  }

  /** The first |finished| handles of `cs` have returned exactly when their
      report was done. */
  ghost predicate Reported(cs: seq<Coroutine>, finished: seq<bool>)
    requires |finished| <= |cs|
    reads set c | c in cs
  {
    forall j :: 0 <= j < |finished| ==> (finished[j] <==> cs[j].Over())
  }

  /** When each report says whether its handle has returned, none of the
      handles that reported pending has returned. */
  lemma SurvivorsPending(cs: seq<Coroutine>, finished: seq<bool>)
    requires |finished| == |cs|
    requires forall i :: 0 <= i < |cs| ==> (finished[i] <==> cs[i].Over())
    ensures forall c :: c in Select(cs, finished, false) ==> !c.Over()
  {
    forall c | c in Select(cs, finished, false) ensures !c.Over() {
      SelectFrom(cs, finished, false, c);
    }
  }

  /** No handle is registered twice and no two handles share an outside
      object (clock counter, predicate or property), so resuming one leaves
      every other as it was. */
  ghost predicate Separate(cs: seq<Coroutine>)
  {
    forall i, j :: 0 <= i < j < |cs| ==> cs[i] != cs[j] && cs[i].gen.Objects() !! cs[j].gen.Objects()
  }

  /** The first |finished| handles of `cs` have each moved one resumption
      on from their snapshot in `before`, reporting `finished`. */
  ghost predicate Resumed(cs: seq<Coroutine>, before: seq<Snapshot>, finished: seq<bool>)
    requires |before| == |cs| && |finished| <= |cs|
    reads set c | c in cs
  {
    forall j :: 0 <= j < |finished| ==> cs[j].Moved(before[j], finished[j])
  }

  /** The first |finished| handles have moved on, and the others are still
      at their snapshot. */
  ghost predicate Advanced(cs: seq<Coroutine>, before: seq<Snapshot>, finished: seq<bool>)
    requires |before| == |cs| && |finished| <= |cs|
    reads (set c | c in cs), (set c, o | c in cs && o in c.gen.Reads() :: o)
  {
    && Resumed(cs, before, finished)
    && (forall j :: |finished| <= j < |cs| ==> cs[j].Snap() == before[j])
  }

  /** One iteration of the first loop of `tick()`: `next()` on the handle at
      position i. In a registry without duplicates it leaves the earlier
      handles' reports as they were; in a separate one it leaves every
      other handle's state as it was. */
  method ResumeNext(cs: seq<Coroutine>, i: nat, ghost before: seq<Snapshot>, ghost finished: seq<bool>,
                    ghost journal: Journal)
    returns (done: bool)
    requires i == |finished| < |cs| == |before|
    requires NoDup(cs) ==> Reported(cs, finished)
    requires Separate(cs) ==> Advanced(cs, before, finished)
    modifies cs[i], cs[i].gen.Objects(), journal
    ensures done == cs[i].Over()
    ensures cs[i].StepFrom(old(cs[i].Snap()), done)
    ensures journal.entries == old(journal.entries) + [(cs[i], done)]
    ensures NoDup(cs) ==> Reported(cs, finished + [done])
    ensures Separate(cs) ==> Advanced(cs, before, finished + [done])
  {
    if NoDup(cs) {
      NoDupFirst(cs, i);
    }
    done := cs[i].Resume(journal);
    if Separate(cs) {
      forall j | 0 <= j < |cs| && j != i
        ensures j < i ==> cs[j].Moved(before[j], finished[j])
        ensures j > i ==> cs[j].Snap() == before[j]
      {
        assert cs[j] != cs[i] && cs[j].gen.Objects() !! cs[i].gen.Objects() by {
          if j < i {} else {}
        }
      }
    }
  }

  /** The first pass of `tick()`: resumes each handle of `cs` once, in order,
      and collects the ones whose resumption reported done. The k-th
      resumption is of `cs[k]` and reports `finished[k]`; in a separate
      registry the k-th handle ends one resumption on from its state
      `before[k]` at the start of the pass. */
  method ResumeEach(cs: seq<Coroutine>, ghost journal: Journal)
    returns (finished: seq<bool>, toRemove: seq<Coroutine>, ghost before: seq<Snapshot>)
    modifies (set c | c in cs), (set c, o | c in cs && o in c.gen.Objects() :: o), journal
    ensures |finished| == |cs| == |before|
    ensures forall i :: 0 <= i < |cs| ==> before[i] == old(cs[i].Snap())
    ensures journal.entries == old(journal.entries) + Zip(cs, finished)
    ensures toRemove == Select(cs, finished, true)
    ensures NoDup(cs) ==> forall i :: 0 <= i < |cs| ==> (finished[i] <==> cs[i].Over())
    ensures Separate(cs) ==> Resumed(cs, before, finished)
  {
    ghost var earlier := journal.entries;
    before := seq(|cs|, j requires 0 <= j < |cs| reads if 0 <= j < |cs| then {cs[j]} + cs[j].gen.Reads() else {} => cs[j].Snap());
    toRemove := [];
    finished := [];
    for i := 0 to |cs|
      invariant |finished| == i
      invariant journal.entries == earlier + Zip(cs[..i], finished)
      invariant toRemove == Select(cs[..i], finished, true)
      invariant NoDup(cs) ==> Reported(cs, finished)
      invariant Separate(cs) ==> Advanced(cs, before, finished)
    {
      var c := cs[i];
      var done := ResumeNext(cs, i, before, finished, journal);
      if done {
        toRemove := toRemove + [c];
      }
      SelectSnoc(cs, finished, i, done, true);
      ZipSnoc(cs, finished, i, done);
      finished := finished + [done];
    }
    assert cs[..|cs|] == cs;
  }
}
