/**
 * The `@Timer` method decorator of vue-plugin-timers (src/decorator.ts).
 *
 * Applying `@Timer(opt)` to a component method `key` runs a callback, at
 * component-definition time, that lazily creates the `timers` dictionary on
 * the component's options object and writes `timers[key]`, filling in the
 * defaults of `opt`.  When the build's module format is `umd` the binding
 * `Timer` is never assigned, so no decorator can be built at all.
 */
module Decorator {
  import opened Wrappers

  /** The interval used when `opt.interval` is absent or falsy. */
  const DefaultInterval: int := 1000

  /** The module format that leaves `Timer` unassigned. */
  const Umd: string := "umd"

  /**
   * The `args` closure.  It is stored, never called, so only its identity
   * matters to the registrar.
   */
  datatype ArgsRef = ArgsRef(id: nat)

  /** `TimerDecoratorOptions`: every field may be left out. */
  datatype TimerOptions = TimerOptions(
    interval: Option<int>,
    repeat: Option<bool>,
    args: Option<ArgsRef>)

  /** The entry stored under `options.timers[key]`. */
  datatype TimerEntry = TimerEntry(interval: int, repeat: bool, args: Option<ArgsRef>)

  /** The `timers` property of a component's options: absent, or a dictionary. */
  type Timers = Option<map<string, TimerEntry>>

  /** JavaScript truthiness of an optional number (`undefined` and `0` are falsy). */
  predicate TruthyNumber(x: Option<int>) {
    x.Some? && x.value != 0
  }

  /** JavaScript truthiness of an optional boolean. */
  predicate TruthyBool(x: Option<bool>) {
    x == Some(true)
  }

  /**
   * The entry written for options `opt`: `interval || 1000`,
   * `repeat || false`, and `args` as given.
   */
  function Defaulted(opt: TimerOptions): (e: TimerEntry)
    ensures opt.interval.Some? && opt.interval.value != 0 ==> e.interval == opt.interval.value
    ensures opt.interval == None || opt.interval == Some(0) ==> e.interval == DefaultInterval
    ensures e.interval != 0
    ensures e.repeat <==> opt.repeat == Some(true)
    ensures e.args == opt.args
  {
    TimerEntry(
      if TruthyNumber(opt.interval) then opt.interval.value else DefaultInterval,
      TruthyBool(opt.repeat),
      opt.args)
  }

  /** The entry stored for `key` in `t`, if any. */
  function Lookup(t: Timers, key: string): (e: Option<TimerEntry>) {
    if t.Some? && key in t.value then Some(t.value[key]) else None
  }

  /**
   * The `timers` dictionary after the decorator callback has run once for
   * method `key` with options `opt`, starting from `t`.
   */
  function Registered(t: Timers, key: string, opt: TimerOptions): (m: map<string, TimerEntry>)
    ensures key in m && m[key] == Defaulted(opt)
    ensures t.None? ==> m == map[key := Defaulted(opt)]
    ensures t.Some? ==> m.Keys == t.value.Keys + {key}
    ensures forall k :: k != key ==> Lookup(Some(m), k) == Lookup(t, k)
  {
    var base := if t.None? then map[] else t.value;
    base[key := Defaulted(opt)]
  }

  /** A component definition's options object, updated in place by decorators. */
  class ComponentOptions {
    var timers: Timers

    /** A fresh options object carries no `timers` property. */
    constructor ()
      ensures timers == None
    {
      timers := None;
    }

    /** The callback handed to `createDecorator` for `@Timer(opt)` on method `key`. */
    method Register(key: string, opt: TimerOptions)
      modifies this
      ensures timers == Some(Registered(old(timers), key, opt))
      ensures timers.Some? && key in timers.value && timers.value[key] == Defaulted(opt)
      ensures old(timers).None? ==> timers.value.Keys == {key}
      ensures forall k :: k != key ==> Lookup(timers, k) == Lookup(old(timers), k)
    {
      if timers.None? {
        timers := Some(map[]);
      }
      timers := Some(timers.value[key := Defaulted(opt)]);
    }
  }

  /** Registering the same method twice keeps only the second entry. */
  lemma LastWriteWins(t: Timers, key: string, first: TimerOptions, second: TimerOptions)
    ensures Registered(Some(Registered(t, key, first)), key, second) == Registered(t, key, second)
  {
  }

  /** Registering the same method twice with the same options is the same as once. */
  lemma RegisterIdempotent(t: Timers, key: string, opt: TimerOptions)
    ensures Registered(Some(Registered(t, key, opt)), key, opt) == Registered(t, key, opt)
  {
  }

  /** Registrations of two different methods commute. */
  lemma RegisterCommutes(t: Timers, k1: string, o1: TimerOptions, k2: string, o2: TimerOptions)
    requires k1 != k2
    ensures Registered(Some(Registered(t, k1, o1)), k2, o2)
         == Registered(Some(Registered(t, k2, o2)), k1, o1)
  {
  }

  /** One annotation: `@Timer(opt)` on method `key`. */
  datatype Registration = Registration(key: string, opt: TimerOptions)

  /**
   * The `timers` property after the callback has run for each registration
   * in turn, in the order the callbacks run.
   */
  function RegisterAll(t: Timers, regs: seq<Registration>): (r: Timers)
    decreases |regs|
  {
    if regs == [] then t
    else
      var last := regs[|regs| - 1];
      Some(Registered(RegisterAll(t, regs[..|regs| - 1]), last.key, last.opt))
  }

  /** The options of the last registration for `key` in `regs`, if there is one. */
  function LastFor(regs: seq<Registration>, key: string): (r: Option<TimerOptions>)
    ensures r.None? ==> forall i :: 0 <= i < |regs| ==> regs[i].key != key
    ensures r.Some? ==> exists i :: 0 <= i < |regs| && regs[i] == Registration(key, r.value)
                                    && forall j :: i < j < |regs| ==> regs[j].key != key
    decreases |regs|
  {
    if regs == [] then None
    else if regs[|regs| - 1].key == key then Some(regs[|regs| - 1].opt)
    else LastFor(regs[..|regs| - 1], key)
  }

  /**
   * After a series of registrations, each method holds the defaulted entry
   * of its last registration; a method never registered keeps what it had.
   */
  lemma {:induction false} RegisterAllLookup(t: Timers, regs: seq<Registration>, key: string)
    ensures Lookup(RegisterAll(t, regs), key)
         == if LastFor(regs, key).Some? then Some(Defaulted(LastFor(regs, key).value)) else Lookup(t, key)
    ensures RegisterAll(t, regs).Some? <==> t.Some? || regs != []
    decreases |regs|
  {
    if regs != [] {
      RegisterAllLookup(t, regs[..|regs| - 1], key);
    }
  }

  /** The error JavaScript raises when the unassigned `Timer` binding is called. */
  datatype TypeError = TimerIsNotAFunction

  /** The decorator value `Timer(opt)` evaluates to. */
  datatype TimerDecorator = TimerDecorator(opt: TimerOptions)

  /**
   * Evaluating `Timer(opt)` under module format `moduleFormat` (absent when
   * the build sets none): the binding exists only outside `umd` builds.
   */
  function Timer(moduleFormat: Option<string>, opt: TimerOptions): (d: Result<TimerDecorator, TypeError>)
    ensures d.Failure? <==> moduleFormat == Some(Umd)
    ensures d.Success? ==> d.value.opt == opt
  {
    if moduleFormat != Some(Umd) then Success(TimerDecorator(opt)) else Failure(TimerIsNotAFunction)
  }

  /**
   * Defining a component whose options object starts with `timers` equal
   * to `t` (the object passed to `@Component`, which may already carry
   * it).  `regs` lists the annotations in the order their callbacks run:
   * members top to bottom and, within one member, stacked annotations
   * bottom to top.  Each annotation evaluates `Timer(opt)`, and its
   * decorator then runs the callback on the options object.
   */
  function DefineComponent(moduleFormat: Option<string>, t: Timers, regs: seq<Registration>): (r: Result<Timers, TypeError>)
    ensures r.Failure? <==> moduleFormat == Some(Umd) && regs != []
    decreases |regs|
  {
    if regs == [] then Success(t)
    else
      var last := regs[|regs| - 1];
      match DefineComponent(moduleFormat, t, regs[..|regs| - 1])
      case Failure(e) => Failure(e)
      case Success(t') =>
        match Timer(moduleFormat, last.opt)
        case Failure(e) => Failure(e)
        case Success(d) => Success(Some(Registered(t', last.key, d.opt)))
  }

  /** In a `umd` build no annotation can add or change a `timers` entry. */
  lemma {:induction false} UmdRegistersNothing(t: Timers, regs: seq<Registration>)
    ensures DefineComponent(Some(Umd), t, regs) == if regs == [] then Success(t) else Failure(TimerIsNotAFunction)
    ensures forall key :: DefineComponent(Some(Umd), t, regs).Success? ==>
      Lookup(DefineComponent(Some(Umd), t, regs).value, key) == Lookup(t, key)
    decreases |regs|
  {
    if regs != [] {
      UmdRegistersNothing(t, regs[..|regs| - 1]);
    }
  }

  /** In any other build, defining a component runs every registration. */
  lemma {:induction false} DefineComponentRegistersAll(moduleFormat: Option<string>, t: Timers, regs: seq<Registration>)
    requires moduleFormat != Some(Umd)
    ensures DefineComponent(moduleFormat, t, regs) == Success(RegisterAll(t, regs))
    decreases |regs|
  {
    if regs != [] {
      DefineComponentRegistersAll(moduleFormat, t, regs[..|regs| - 1]);
    }
  }

  /**
   * The test component's `@Timer({ interval: 200 })` on `incr` stores a
   * one-shot 200 ms timer with no arguments.
   */
  lemma NoRepeatExample(moduleFormat: Option<string>)
    requires moduleFormat != Some(Umd)
    ensures DefineComponent(moduleFormat, None, [Registration("incr", TimerOptions(Some(200), None, None))])
         == Success(Some(map["incr" := TimerEntry(200, false, None)]))
  {
  }
}
