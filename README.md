# pool-factory in Dafny

A model of the core of pool-factory, a generic C++ object pool. It has four layers:

- **Result** (`result.dfy`, module `Results`). A success-or-failure value with `map`, `map_err`, `and_then`, `or_else`, `value_or` and `match`. Each operator has a contract. Lemmas give the algebraic laws: functor and monad laws, map-then-match fusion, and `value_or` as a special `match`.
- **PoolConfig** (`pool_config.dfy`, module `Config`). An immutable record with copy-and-set builders and the three predefined configurations.
- **The pool state machine** (`pool_model.dfy`, module `PoolModel`). Pre-warm, acquire, the thread-safe pool's post-wait acquire, release and `with_resource`, written as functions on a `PoolState` value. The lemmas cover single steps (each acquire/release branch), the pool invariant, and sequences of steps: filling to capacity, a failing resetter, and a concrete min 2 / max 3 run. Several of these are proved by induction.
- **The objects** (`pool.dfy`, module `Pooling`). `PooledResource` (the single-owner handle), `Pool` and `ThreadSafePool` are classes whose methods update fields in place. Each method's postcondition equates the new state with the model function applied to the old state. The handle and the pool refer to each other, so both live in one module. Proof-only bookkeeping:
  - The pool keeps a ghost set of the live handles it issued, and `Valid()` ties `in_use` to that set's size. That is why `do_release` can never decrement a zero counter.
  - A ghost `discarded` count makes `available + in_use + discarded == total_created` exact.
- **The factory** (`pool_factory.dfy`, module `Factory`). `validate_config` gates every creator. The `create*` and `make_*` functions pass the default callbacks and default configuration along.

The callbacks are parameters:
- The factory is an oracle `nat -> Result<T, string>`. Its k-th call returns `factory(k)`, and the pool keeps the call count.
- The validator is a pure predicate.
- The resetter is a function that returns the reset resource or an error.

Three behaviours of the code are easy to misread:
- When acquire-time validation rejects the front resource, the code calls the factory exactly once, without re-checking capacity (include/poolfactory/pool.hpp:60-63). It does not loop or recurse. `PoolModel.AcquirePreservesInv` shows this never breaks `available + in_use <= max_size`, because the discarded resource frees the slot.
- A moved-from handle keeps its (moved-from) resource slot engaged. Only its releaser is cleared (include/poolfactory/pooled_resource.hpp:29-32). "Inert" therefore means "no releaser", and `HasValue` can still be true on it.
- The exhaustion error is exactly `"Pool exhausted: max_size reached"`.

## Model

| member | source | states |
|---|---|---|
| Results.Result.IsOk | include/poolfactory/result.hpp:53 | true exactly for the success variant |
| Results.Result.IsErr | include/poolfactory/result.hpp:54 | is exactly `!IsOk()`, i.e. the failure variant |
| Results.Result.Value | include/poolfactory/result.hpp:56-57 | defined only on a success (precondition), and returns the value it holds |
| Results.Result.Error | include/poolfactory/result.hpp:59-60 | defined only on a failure (precondition), and returns the error it holds |
| Results.Result.Map | include/poolfactory/result.hpp:65-80 | keeps the variant; on Ok(v) holds f(v); on Err(e) holds the same e |
| Results.Result.MapErr | include/poolfactory/result.hpp:85-92 | keeps the variant; on Err(e) holds f(e); on Ok(v) holds the same v |
| Results.Result.AndThen | include/poolfactory/result.hpp:97-111 | on Ok(v) is f(v); on Err(e) short-circuits to a failure with e |
| Results.Result.OrElse | include/poolfactory/result.hpp:116-128 | on Ok returns the receiver itself; on Err(e) returns f(e) |
| Results.Result.ValueOr | include/poolfactory/result.hpp:133-145 | the Ok value, or the default on Err |
| Results.Result.Match | include/poolfactory/result.hpp:150-164 | onOk(v) on success, onErr(e) on failure |
| Results.ConstructorsTagged | include/poolfactory/result.hpp:46-47 | `ok(v)` is Ok holding v; `err(e)` is Err holding e |
| Results.MapIdentity | include/poolfactory/result.hpp:65-80 | mapping the identity returns the same Result |
| Results.MapComposition | include/poolfactory/result.hpp:65-80 | mapping f then g equals mapping g∘f once |
| Results.MapThenMatch | include/poolfactory/result.hpp:150-164 | `map(f)` then `match(g, h)` equals `match(g∘f, h)`; on Err it is h(e) whatever f is |
| Results.MapIsAndThenOk | include/poolfactory/result.hpp:97-111 | `map(f)` equals `and_then(x => ok(f(x)))` |
| Results.AndThenMonadLaws | include/poolfactory/result.hpp:97-111 | left identity, right identity and associativity of `and_then` with `ok` |
| Results.OrElseLaws | include/poolfactory/result.hpp:116-128 | `or_else(err)` is the identity; `or_else` never changes a success |
| Results.MapMapErrCommute | include/poolfactory/result.hpp:85-92 | `map` and `map_err` commute |
| Results.ValueOrIsMatch | include/poolfactory/result.hpp:133-145 | `value_or(d)` equals `match(id, _ => d)` |
| Config.PoolConfig.WithMinSize | include/poolfactory/pool_config.hpp:23-27 | a copy differing from the receiver only in min_size |
| Config.PoolConfig.WithMaxSize | include/poolfactory/pool_config.hpp:29-33 | a copy differing from the receiver only in max_size |
| Config.PoolConfig.WithAcquireTimeout | include/poolfactory/pool_config.hpp:35-40 | a copy differing from the receiver only in acquire_timeout |
| Config.PoolConfig.WithIdleTimeout | include/poolfactory/pool_config.hpp:42-47 | a copy differing from the receiver only in idle_timeout |
| Config.PoolConfig.WithValidation | include/poolfactory/pool_config.hpp:49-55 | a copy with exactly the two validation flags set and nothing else changed |
| Config.DefaultValues | include/poolfactory/pool_config.hpp:15-20 | defaults min 0, max 10, 30 s, 5 min, validate on acquire only; the default is well-formed |
| Config.PredefinedConfigs | include/poolfactory/pool_config.hpp:63-70 | thread 4/16 no validation, connection 2/20 both validations, memory 8/64 no validation; each has 1 ≤ max and min ≤ max |
| Config.BuildersRoundTrip | include/poolfactory/pool_config.hpp:22-55 | for all five builders, setting a field and setting it back gives the receiver; for the four single-field builders, of two settings of the same field the last wins |
| PoolModel.Successes | include/poolfactory/pool.hpp:128-134 | pre-warm keeps at most one resource per factory call |
| PoolModel.SuccessesExact | include/poolfactory/pool.hpp:128-134 | every kept resource came from a successful call; when all calls succeed, all are kept |
| PoolModel.SuccessesCount | include/poolfactory/pool.hpp:128-134 | pre-warm keeps exactly as many resources as there were successful factory calls; failures are dropped |
| PoolModel.SuccessesInCallOrder | include/poolfactory/pool.hpp:128-134 | the i-th call's resource, when that call succeeded, sits at the position equal to the number of earlier successes: idle order is call order |
| PoolModel.Prewarm | include/poolfactory/pool.hpp:124-135 | the constructed state: min_size factory calls, nothing checked out or discarded, total_created = number idle = number of successful calls |
| PoolModel.PrewarmEstablishesInv | include/poolfactory/pool.hpp:124-135 | after construction in_use = 0, available = total_created = successful calls ≤ min_size, min_size factory calls made, invariant holds |
| PoolModel.CreateStep | include/poolfactory/pool.hpp:165-174 | one factory call whose result is reported as is; success bumps total_created and in_use, failure changes neither; the idle set is untouched |
| PoolModel.TakeFront | include/poolfactory/pool.hpp:55-66 | the front always leaves the idle set; a success checks one more out, a failure changes neither counter; keeps the invariant |
| PoolModel.AcquireAfterWait | include/poolfactory/pool.hpp:212-229 | a success checks one more out; any error is the factory's own result; keeps the invariant |
| PoolModel.ReleaseStep | include/poolfactory/pool.hpp:137-157 | one fewer checked out, creation counters untouched, the released resource ends up either idle or discarded; keeps the invariant |
| PoolModel.WithResourceStep | include/poolfactory/pool.hpp:82-102 | succeeds exactly when the acquire does, then holds f of the acquired resource with in_use back where it began; keeps the invariant |
| PoolModel.AcquireStep | include/poolfactory/pool.hpp:53-75 | a successful acquire increments in_use; a failed one changes neither in_use nor total_created |
| PoolModel.AcquireReusesFront | include/poolfactory/pool.hpp:55-66 | non-empty idle set, validation passing or off: returns the front, removes exactly it, in_use + 1, nothing else changes |
| PoolModel.AcquireReplacesRejectedFront | include/poolfactory/pool.hpp:60-63 | front rejected: it is discarded and the factory is called once; success counts one created and checked out, failure is returned verbatim with counters unchanged |
| PoolModel.AcquireExhausted | include/poolfactory/pool.hpp:69-72 | empty idle set at capacity: the exhaustion error, no factory call, state unchanged |
| PoolModel.AcquireCreatesWithRoom | include/poolfactory/pool.hpp:69-75 | empty idle set with room: one factory call; error verbatim with counters unchanged, or both counters + 1 |
| PoolModel.RejectingValidatorAlwaysCreates | include/poolfactory/pool.hpp:60-63 | with an always-rejecting acquire validator every successful acquire increases total_created |
| PoolModel.ReleaseOutcome | include/poolfactory/pool.hpp:137-157 | in_use − 1 always; the reset resource goes to the back of the idle set iff the reset succeeds and release validation (if on) accepts it, else it is discarded |
| PoolModel.AcquirePreservesInv | include/poolfactory/pool.hpp:53-75 | acquire keeps available + in_use ≤ max_size and available + in_use + discarded = total_created |
| PoolModel.ReleasePreservesInv | include/poolfactory/pool.hpp:137-157 | release keeps the same invariant |
| PoolModel.InvBounds | include/poolfactory/pool.hpp:53-157 | the invariant gives in_use ≤ max_size and available + in_use ≤ total_created, with equality when nothing was discarded |
| PoolModel.AcquireAfterWaitAgrees | include/poolfactory/pool.hpp:212-229 | after the wait loop the decision equals the single-threaded acquire, never takes the exhaustion branch, keeps the invariant, and any error is the factory's own |
| PoolModel.WithResourceOutcome | include/poolfactory/pool.hpp:82-102 | acquire failure: same error, f never applied; success: Ok(f(r)), resource released, in_use ends where it began |
| PoolModel.FillsToCapacity | include/poolfactory/pool.hpp:53-75 | with a succeeding factory and no rejection, max_size − in_use acquires all succeed and the next reports exhaustion |
| PoolModel.FailingResetDiscardsAll | include/poolfactory/pool.hpp:141-147 | with an always-failing resetter, n with_resource calls create n resources, keep none idle, and leave in_use unchanged |
| PoolModel.ScenarioMinTwoMaxThree | include/poolfactory/pool.hpp:53-75 | min 2 / max 3: 2 idle after construction, 0 idle and 2 in use after two acquires, a third creates (3 in use, 3 created), a fourth is exhausted |
| Pooling.PooledResource.Wrap | include/poolfactory/pooled_resource.hpp:74-75 | a handle built by the pool holds both a resource and a releaser |
| Pooling.PooledResource.MoveFrom | include/poolfactory/pooled_resource.hpp:29-32 | the new handle takes the resource and releaser; the source keeps its slot but loses its releaser; the pool's state is unchanged |
| Pooling.PooledResource.MoveAssign | include/poolfactory/pooled_resource.hpp:34-42 | self-assignment changes nothing, neither the handle nor its pool; otherwise the target's resource is released first, then the source's pair is adopted and the source's releaser nulled |
| Pooling.PooledResource.Adopt | include/poolfactory/pooled_resource.hpp:37-39 | an inert handle takes over the other's resource and releaser; the other can no longer release |
| Pooling.PooledResource.Release | include/poolfactory/pooled_resource.hpp:77-83 | only when both resource and releaser are present: one do_release of the resource, then both cleared; otherwise nothing changes, so a second call does nothing |
| Pooling.PooledResource.Destroy | include/poolfactory/pooled_resource.hpp:44 | destruction is a release |
| Pooling.PooledResource.Get | include/poolfactory/pooled_resource.hpp:47-48 | the held resource; an empty handle is a precondition violation |
| Pooling.PooledResource.HasValue | include/poolfactory/pooled_resource.hpp:55 | true iff the resource slot is engaged |
| Pooling.PooledResource.Use | include/poolfactory/pooled_resource.hpp:61-67 | f applied to the held resource; a function, so it releases nothing |
| Pooling.HandleLifecycle | include/poolfactory/pooled_resource.hpp:29-44 | move, destroy the source, release twice, destroy: the pool sees exactly one release of the resource |
| Pooling.Pool.constructor | include/poolfactory/pool.hpp:124-135 | pre-warm loop: state equals `Prewarm`, no live handles, invariant holds |
| Pooling.Pool.Acquire | include/poolfactory/pool.hpp:53-75 | new state and reported result are those of `AcquireStep`; a success is a fresh handle bound to this pool |
| Pooling.Pool.TakeFront | include/poolfactory/pool.hpp:55-66 | pop the front; validate; hand it out or discard it and create |
| Pooling.Pool.CreateAndWrap | include/poolfactory/pool.hpp:165-174 | one factory call; error verbatim, or created and checked out (the `_locked` copy at 261-270 is the same) |
| Pooling.Pool.WrapResource | include/poolfactory/pool.hpp:159-163 | a fresh handle holding the resource with this pool as releaser |
| Pooling.Pool.DoRelease | include/poolfactory/pool.hpp:137-157 | new state is `ReleaseStep` of the old; the releasing handle leaves the live set |
| Pooling.Pool.WithResource | include/poolfactory/pool.hpp:82-102 | result and new state are those of `WithResourceStep`; no handle stays live |
| Pooling.Pool.Stats | include/poolfactory/pool.hpp:107-114 | the four counters as they are; under the invariant available + in_use ≤ max_size and ≤ total_created |
| Pooling.ThreadSafePool.constructor | include/poolfactory/pool.hpp:243-244 | builds and pre-warms the inner pool |
| Pooling.ThreadSafePool.Acquire | include/poolfactory/pool.hpp:212-229 | given the wait loop's exit condition, state and result are those of `AcquireAfterWait` |
| Pooling.ThreadSafePool.Stats | include/poolfactory/pool.hpp:235-238 | the inner pool's snapshot |
| Factory.ValidateConfig | include/poolfactory/pool_factory.hpp:145-153 | Ok iff 1 ≤ max and min ≤ max; max = 0 gives "max_size cannot be 0" (checked first); otherwise min > max gives "min_size cannot exceed max_size" |
| Factory.ZeroCapacityReportedFirst | include/poolfactory/pool_factory.hpp:146-148 | min 1, max 0 reports "max_size cannot be 0" |
| Factory.CreateWithLifecycle | include/poolfactory/pool_factory.hpp:61-82 | invalid config: the validation error verbatim, no pool; else a fresh pre-warmed pool with the given callbacks |
| Factory.CreateValidated | include/poolfactory/pool_factory.hpp:45-59 | as CreateWithLifecycle with the do-nothing resetter |
| Factory.Create | include/poolfactory/pool_factory.hpp:33-43 | as CreateWithLifecycle with the always-true validator and the do-nothing resetter |
| Factory.CreateThreadSafeWithLifecycle | include/poolfactory/pool_factory.hpp:121-142 | invalid config: the validation error verbatim, no pool; else a fresh pre-warmed thread-safe pool |
| Factory.CreateThreadSafeValidated | include/poolfactory/pool_factory.hpp:104-119 | as CreateThreadSafeWithLifecycle with the do-nothing resetter |
| Factory.CreateThreadSafe | include/poolfactory/pool_factory.hpp:88-102 | as CreateThreadSafeWithLifecycle with the default callbacks |
| Factory.MakePool | include/poolfactory/pool_factory.hpp:163-167 | the same contract as Create on the same arguments |
| Factory.MakeThreadSafePool | include/poolfactory/pool_factory.hpp:172-176 | the same contract as CreateThreadSafe on the same arguments |
| Factory.DefaultCallbacksNeverDiscard | include/poolfactory/pool_factory.hpp:38-42 | with create's callbacks, release always appends the resource unchanged and acquire on a non-empty idle set always hands out the front |
| Factory.DefaultCallbacksRotateIdle | include/poolfactory/pool_factory.hpp:38-42 | with create's callbacks, with_resource on a non-empty idle set returns f(front), moves the front to the back, and leaves in_use and total_created unchanged |

## Left out

- The thread-safe pool's mutex, condition variable, `wait_until` deadline and `notify_one` are not modelled. This is concurrency and wall-clock time. `ThreadSafePool.Acquire` takes the wait loop's exit condition as its precondition. So the `"Pool acquire timeout"` error path is not modelled.
- `acquire_timeout` and `idle_timeout` are plain integer fields (milliseconds). No code reads `idle_timeout`.
- Pooling.ThreadSafePool.Acquire: the thread-safe pool is a wrapper around an inner `Pool`, not a subclass. Its handles release into the inner pool. Its locked `do_release` is the same state change under a lock. `create_and_wrap_locked` and `wrap_resource_locked` are copies of the single-threaded versions, so `Pool.CreateAndWrap` and `Pool.WrapResource` model them.
- Pooling.Pool.WithResource: `f` receives the resource by value and cannot change it in place. Resources are values here, so a callback that mutates the borrowed resource before it is released is not modelled. A `void` callback is a callback returning `()`.
- Exceptions thrown by `f` inside `with_resource`, and the release-on-throw they trigger, are not modelled. Dafny has no exceptions, so only the normal return path is modelled.
- Pooling.PooledResource.MoveFrom: the moved-from handle's slot is modelled as still holding a copy of the resource. In the source it holds a moved-from `T` whose value is unspecified, so the model's `Get` on that handle promises more than the source.
- Pooling.PooledResource.MoveAssign: the same simplification for the source handle of a move assignment.
- Pooling.PooledResource.Adopt: the same simplification, since both moves use it.
- Pooling.PooledResource.Destroy: destruction is not automatic. In the source `~PooledResource` releases on every scope exit, so a handle cannot leak. Here `Destroy` must be called explicitly. A handle dropped without it stays among the pool's live handles, and `in_use` does not come back down. `Pool.WithResource` calls it itself; a handle from `Pool.Acquire` relies on its caller.
- Pooling.PooledResource.Use: like `Get`, only read access is modelled. The non-const `use(f)` hands `f` a `T&` it may mutate, which is not modelled.
- Pooling.PooledResource.Get: only read access is modelled. `operator->` and `operator*` give the same value. Mutable access through `T&` is not modelled, for the same reason as `WithResource`.
- `shared_ptr` ownership, address stability and the `this` capture in the releaser lambdas are not modelled. A handle's releaser is a plain reference to its pool. Pool destruction, which drains and destroys the idle resources, is not modelled.
- `size_t` counters are unbounded naturals. Wrap-around of `--in_use_` cannot arise: the pool's ghost set of live handles shows that `do_release` only runs with `in_use ≥ 1`.
- The resetter in the source mutates the resource and returns `Result<Unit>`. Here it returns the reset resource or the error. The factory's own internal state is not modelled: it is an oracle indexed by call count.
- The `validator_ &&` and `resetter_ &&` null checks are not modelled. The factory always supplies both callbacks, so they are always present.
- The `const&` and `&&` overloads of each `Result` operator are modelled as one function. With value semantics they compute the same thing.
- `src/main.cpp` (a demonstration program) and `include/poolfactory/concepts.hpp` (compile-time constraints on callback shapes, fixed here by Dafny's types) are not part of this model. `include/poolfactory/unit.hpp` is Dafny's `()`.
