# vue-plugin-timers: the `@Timer` registrar

This project models the metadata registrar of vue-plugin-timers, a Vue plugin
that starts named timers when a component mounts and stops them when it is
destroyed. The registrar is the `@Timer(opt)` method decorator in
`src/decorator.ts`. When it is applied to a method `key` of a class component,
its callback runs once, at component-definition time, on the component's
options object:

- if `options.timers` is missing, it is created as an empty dictionary;
- `options.timers[key]` is then set to `{ interval: opt.interval || 1000,
  repeat: opt.repeat || false, args: opt.args }`.

JavaScript's `||` is modelled by its truthiness rule, so an interval of `0`
becomes `1000` just like a missing one. `TimerOptions` models
`TimerDecoratorOptions`, and `TimerEntry` models the stored entry.
`ComponentOptions` models the options object that the callback updates in
place; its `Register` method is the callback.

The binding `Timer` is assigned only when the build's `MODULE_FORMAT` is not
`umd`. The module format is a parameter of the model (absent when the build
sets none). In a `umd` build the annotation `@Timer(opt)` calls an unassigned
binding, and JavaScript raises a `TypeError`. The model represents this as a
`Failure`, so no `timers` entry can be produced in that build. A `umd` build
therefore does not silently ignore the annotation: the code leaves the binding
unassigned, and the model follows the code.

Files:
- `wrappers.dfy`: `Option` (an optional property) and `Result` (an evaluation that may throw).
- `decorator.dfy`: the registrar, the `umd` gating, and the lemmas about them.

## Model

| member | source | states |
|---|---|---|
| Decorator.Defaulted | src/decorator.ts:17-21 | the stored interval is `opt.interval` when it is present and non-zero and 1000 when it is absent or 0, so it is never 0; the stored repeat is true exactly when `opt.repeat` is `true`; `args` is copied unchanged, absent included |
| Decorator.Registered | src/decorator.ts:14-21 | after one callback run, `key` maps to the defaulted entry; if `timers` was absent, the dictionary holds exactly that one key; otherwise its keys are the old keys plus `key`; every other key keeps its old entry or stays absent |
| Decorator.ComponentOptions.Register | src/decorator.ts:13-22 | updates `timers` in place: it creates the dictionary when it is missing, then writes `timers[key]`; the new state is `Registered(old timers, key, opt)`, and no other key changes |
| Decorator.LastWriteWins | src/decorator.ts:17-21 | registering the same method twice leaves the entry of the second registration |
| Decorator.RegisterIdempotent | src/decorator.ts:17-21 | registering the same method twice with the same options gives the same dictionary as registering it once |
| Decorator.RegisterCommutes | src/decorator.ts:17 | registrations of two different methods give the same key/entry pairs in either order |
| Decorator.RegisterAllLookup | src/decorator.ts:13-22 | after a sequence of registrations, each method holds the defaulted entry of its last registration, and a method never registered keeps its earlier entry or stays absent; `timers` exists exactly when it existed before or at least one registration ran |
| Decorator.Timer | src/decorator.ts:8-12 | evaluating `Timer(opt)` fails exactly in a `umd` build; otherwise it yields a decorator that carries `opt` |
| Decorator.DefineComponent | src/decorator.ts:11-22 | defining a component fails with a `TypeError` exactly when the build is `umd` and the component carries at least one `@Timer` annotation |
| Decorator.UmdRegistersNothing | src/decorator.ts:8-24 | in a `umd` build, a component with no annotation keeps the `timers` it was given, and the first `@Timer` annotation throws, so no `timers` entry is ever added or changed |
| Decorator.DefineComponentRegistersAll | src/decorator.ts:11-22 | in any other build, defining a component runs the callback for every annotation, in the order the callbacks run, starting from whatever `timers` the options object already holds |
| Decorator.NoRepeatExample | test/mixin/decorator_norepeat.ts:17-20 | `@Timer({ interval: 200 })` on `incr` stores `{ interval: 200, repeat: false, args: absent }` |

## Left out

- The timer runtime mixin (`VueTimersMixin`, `$timers.start`/`stop`, and the mount and destroy hooks) is not part of this model. It wraps the platform's `setTimeout` and `setInterval`.
- The internals of `createDecorator` and of `vue-class-component` are not modelled. `DefineComponent` takes the order in which the library runs the callbacks as its input: members top to bottom, and stacked annotations on one member bottom to top (TypeScript applies them last-first). It also takes the `timers` of the object passed to `@Component` as its input.
- The `args` closure is never called by the registrar. It is modelled as an opaque identity (`ArgsRef`).
- `interval` is modelled as an optional integer. JavaScript's `NaN` (also falsy, so it also becomes 1000) and fractional values are not modelled.
- The `process.env.MODULE_FORMAT` lookup at src/decorator.ts:11 is not modelled. The module format is a parameter of `Timer` and `DefineComponent`.
- Decorator.RegisterCommutes: key insertion order is not modelled. A JavaScript object lists its keys in insertion order, so registering `k1` then `k2` gives the keys `[k1, k2]`, and the other order gives `[k2, k1]`. The Dafny `map` has no order, so the lemma states only that the key/entry pairs agree. Writing an existing key again keeps its position, so `LastWriteWins` and `RegisterIdempotent` are not affected.
- `repeat` is modelled as an optional boolean. The TypeScript type admits only `true` or absent, so `Some(false)` is an extra input; it stores `false`, just as `false || false` does.
- The options object's properties other than `timers` are not modelled. The callback never touches them.
- The test harness's wall-clock checks (jsdom, `setTimeout`, `count == 1` after 500 ms) are not modelled. Only its decorator input is used, in `NoRepeatExample`.
