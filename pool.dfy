/** The pool objects: the single-owner resource handle, the single-threaded pool and the decision
    step of the thread-safe pool. The handle and the pool refer to each other (a handle's releaser
    is its pool, a pool tracks the handles it has issued), so both classes live in this module.
    Every state change is specified by the functions of module PoolModel. */
module Pooling {
  import opened Results
  import opened Config
  import opened PoolModel

  /** An optional value, as the handle's optional resource slot. */
  datatype Option<T> = None | Some(value: T)

  /** A read-only snapshot of the pool's counters. */
  datatype PoolStats = PoolStats(available: nat, inUse: nat, totalCreated: nat, maxSize: nat)

  /** A single-owner handle on one checked-out resource. `releaser` stands for the release
      closure: when non-null it is the pool the resource goes back to. */
  class PooledResource<T> {
    var resource: Option<T>
    var releaser: Pool?<T>

    /** A handle that can still release is registered with its pool, holds a resource, and its
        pool is consistent. */
    ghost predicate Valid()
      reads this, releaser, if releaser != null then releaser.outstanding else {}
    {
      releaser != null ==> resource.Some? && this in releaser.outstanding && releaser.Valid()
    }

    /** The private constructor the pool uses: a handle holding both a resource and a releaser. */
    constructor Wrap(resource: T, releaser: Pool<T>)
      ensures this.resource == Some(resource) && this.releaser == releaser
    {
      this.resource := Some(resource);
      this.releaser := releaser;
    }

    /** Move construction: the new handle takes over the resource and the releaser; the source
        keeps its (moved-from) resource slot but loses its releaser, so it can never release. */
    constructor MoveFrom(other: PooledResource<T>)
      requires other.Valid()
      modifies other, other.releaser
      ensures Valid() && other.Valid()
      ensures resource == old(other.resource) && releaser == old(other.releaser)
      ensures other.resource == old(other.resource) && other.releaser == null
      ensures old(other.releaser) != null ==>
                old(other.releaser).State() == old(other.releaser.State())
                && old(other.releaser).outstanding == old(other.releaser.outstanding) - {other} + {this}
    {
      resource := None;
      releaser := null;
      new;
      Adopt(other);
    }

    /** Move assignment: to itself it does nothing; otherwise it first releases what this handle
        holds, then takes over the other's resource and releaser, leaving the other inert. */
    method MoveAssign(other: PooledResource<T>)
      requires Valid() && other.Valid()
      modifies this, other, releaser, other.releaser
      ensures this == other ==> resource == old(resource) && releaser == old(releaser)
      ensures this == other && releaser != null ==>
                releaser.State() == old(releaser.State()) && releaser.outstanding == old(releaser.outstanding)
      ensures this != other ==>
                Valid() && other.Valid()
                && resource == old(other.resource) && releaser == old(other.releaser)
                && other.resource == old(other.resource) && other.releaser == null
      ensures this != other && old(releaser) != null ==>
                old(releaser).State() ==
                ReleaseStep(old(releaser).config, old(releaser).Hooks(), old(releaser.State()),
                            old(resource).value)
      ensures this != other && old(releaser) != null && old(releaser) != old(other.releaser) ==>
                old(releaser).Valid() && old(releaser).outstanding == old(releaser.outstanding) - {this}
      ensures this != other && old(other.releaser) != null ==>
                old(other.releaser).outstanding == old(other.releaser.outstanding) - {other} + {this}
      ensures this != other && old(other.releaser) != null && old(other.releaser) != old(releaser) ==>
                old(other.releaser).State() == old(other.releaser.State())
    {
      if this != other {
        var mine, theirs := releaser, other.releaser;
        if theirs != null && theirs != mine {
          assert this !in theirs.outstanding;
        }
        Release();
        assert other.Valid();
        if mine != null && mine != theirs {
          assert other !in mine.outstanding;
        }
        Adopt(other);
      }
    }

    /** The second half of a move: an inert handle takes over the other's resource and releaser,
        and the pool's record of live handles follows the releaser. */
    method Adopt(other: PooledResource<T>)
      requires other.Valid() && this != other && releaser == null
      modifies this, other, other.releaser
      ensures Valid() && other.Valid()
      ensures resource == old(other.resource) && releaser == old(other.releaser)
      ensures other.resource == old(other.resource) && other.releaser == null
      ensures old(other.releaser) != null ==>
                old(other.releaser).State() == old(other.releaser.State())
                && old(other.releaser).outstanding == old(other.releaser.outstanding) - {other} + {this}
    {
      resource := other.resource;
      releaser := other.releaser;
      other.releaser := null;
      if releaser != null {
        assert other in releaser.outstanding && this !in releaser.outstanding;
        releaser.outstanding := releaser.outstanding - {other} + {this};
      }
    }

    /** Gives the resource back exactly when both a resource and a releaser are present, then
        clears both; otherwise (in particular on a second call) does nothing. */
    method Release()
      requires Valid()
      modifies this, releaser
      ensures Valid() && releaser == null
      ensures old(resource.Some? && releaser != null) ==>
                resource == None && releaser == null
                && old(releaser).Valid()
                && old(releaser).State() ==
                   ReleaseStep(old(releaser).config, old(releaser).Hooks(), old(releaser.State()),
                               old(resource).value)
                && old(releaser).outstanding == old(releaser.outstanding) - {this}
      ensures !old(resource.Some? && releaser != null) ==>
                resource == old(resource) && releaser == old(releaser)
    {
      if resource.Some? && releaser != null {
        releaser.DoRelease(resource.value, this);
        resource := None;
        releaser := null;
      }
    }

    /** End of life: the destructor releases. */
    method Destroy()
      requires Valid()
      modifies this, releaser
      ensures old(resource.Some? && releaser != null) ==>
                resource == None && releaser == null
                && old(releaser).Valid()
                && old(releaser).State() ==
                   ReleaseStep(old(releaser).config, old(releaser).Hooks(), old(releaser.State()),
                               old(resource).value)
                && old(releaser).outstanding == old(releaser.outstanding) - {this}
      ensures !old(resource.Some? && releaser != null) ==>
                resource == old(resource) && releaser == old(releaser)
    {
      Release();
    }

    /** The held resource; dereferencing an empty handle is a contract violation. */
    function Get(): (r: T)
      reads this
      requires resource.Some?
      ensures resource == Some(r)
    {
      resource.value
    }

    /** Whether the resource slot is engaged (a moved-from handle may still say yes). */
    predicate HasValue(): (b: bool)
      reads this
      ensures b <==> resource != None
    {
      resource.Some?
    }

    /** Applies f to the held resource and leaves the handle as it is. */
    function Use<U>(f: T -> U): (r: U)
      reads this
      requires resource.Some?
      ensures r == f(Get())
    {
      f(resource.value)
    }
  }

  /** The single-threaded pool. The factory is an oracle indexed by the number of calls made so
      far; `discarded` and `outstanding` are proof-only bookkeeping. */
  class Pool<T> {
    const factory: nat -> Result<T, string>
    const validator: T -> bool
    const resetter: T -> Result<T, string>
    const config: PoolConfig

    var available: seq<T>
    var inUse: nat
    var totalCreated: nat
    var factoryCalls: nat
    ghost var discarded: nat
    ghost var outstanding: set<PooledResource<T>>

    /** The lifecycle callbacks as one value. */
    function Hooks(): Lifecycle<T>
    {
      Lifecycle(factory, validator, resetter)
    }

    /** The abstract state the functions of PoolModel act on. */
    ghost function State(): PoolState<T>
      reads this
    {
      PoolState(available, inUse, totalCreated, factoryCalls, discarded)
    }

    /** The pool invariant, and in_use counts exactly the live handles issued by this pool. */
    ghost predicate Valid()
      reads this, outstanding
    {
      Inv(config, State())
      && inUse == |outstanding|
      && forall h :: h in outstanding ==> h.releaser == this && h.resource.Some?
    }

    /** How an acquire's reported result is handed out: a fresh handle on the resource, bound to
        this pool and registered with it, or the same error with no new handle. */
    ghost predicate Issued(r: Result<PooledResource<T>, string>, out: Result<T, string>,
                           before: set<PooledResource<T>>)
      reads this, if r.Ok? then {r.value} else {}
    {
      r.IsOk() == out.IsOk()
      && (r.IsOk() ==>
            r.value.resource == Some(out.Value()) && r.value.releaser == this
            && r.value !in before && outstanding == before + {r.value})
      && (r.IsErr() ==> r.Error() == out.Error() && outstanding == before)
    }

    /** Construction pre-warms the idle set with min_size factory calls, keeping the successes. */
    constructor (factory: nat -> Result<T, string>, validator: T -> bool,
                 resetter: T -> Result<T, string>, config: PoolConfig)
      requires WellFormed(config)
      ensures Valid() && outstanding == {}
      ensures this.factory == factory && this.validator == validator
      ensures this.resetter == resetter && this.config == config
      ensures State() == Prewarm(config, Hooks())
    {
      this.factory := factory;
      this.validator := validator;
      this.resetter := resetter;
      this.config := config;
      available := [];
      inUse := 0;
      totalCreated := 0;
      factoryCalls := 0;
      discarded := 0;
      outstanding := {};
      new;
      for i := 0 to config.minSize
        invariant available == Successes(factory, i) && totalCreated == |available|
        invariant factoryCalls == i && inUse == 0 && discarded == 0 && outstanding == {}
      {
        var result := factory(factoryCalls);
        factoryCalls := factoryCalls + 1;
        if result.IsOk() {
          available := available + [result.Value()];
          totalCreated := totalCreated + 1;
        }
      }
      PrewarmEstablishesInv(config, Hooks());
    }

    /** Pool::acquire. */
    method Acquire() returns (r: Result<PooledResource<T>, string>)
      requires Valid()
      modifies this
      ensures Valid()
      ensures State() == AcquireStep(config, Hooks(), old(State())).next
      ensures Issued(r, AcquireStep(config, Hooks(), old(State())).out, old(outstanding))
      ensures r.Ok? ==> fresh(r.value)
    {
      if |available| > 0 {
        r := TakeFront();
        return;
      }
      if inUse >= config.maxSize {
        return Err(ExhaustedError);
      }
      r := CreateAndWrap();
    }

    /** Pops the oldest idle resource and hands it out, or, when acquire-time validation rejects
        it, discards it and creates a replacement. Shared by both pools' acquire. */
    method TakeFront() returns (r: Result<PooledResource<T>, string>)
      requires Valid() && |available| > 0
      modifies this
      ensures Valid()
      ensures State() == PoolModel.TakeFront(config, Hooks(), old(State())).next
      ensures Issued(r, PoolModel.TakeFront(config, Hooks(), old(State())).out, old(outstanding))
      ensures r.Ok? ==> fresh(r.value)
    {
      ghost var before := State();
      var resource := available[0];
      available := available[1..];
      if config.validateOnAcquire && !validator(resource) {
        discarded := discarded + 1;
        assert State() == before.(available := before.available[1..], discarded := before.discarded + 1);
        r := CreateAndWrap();
        return;
      }
      inUse := inUse + 1;
      r := WrapResource(resource);
      assert State() == before.(available := before.available[1..], inUse := before.inUse + 1);
    }

    /** create_and_wrap: one factory call; the error verbatim, or a counted, wrapped resource.
        Its callers only reach it with room below max_size. */
    method CreateAndWrap() returns (r: Result<PooledResource<T>, string>)
      requires Valid() && |available| + inUse < config.maxSize
      modifies this
      ensures Valid()
      ensures State() == CreateStep(Hooks(), old(State())).next
      ensures Issued(r, CreateStep(Hooks(), old(State())).out, old(outstanding))
      ensures r.Ok? ==> fresh(r.value)
    {
      var result := factory(factoryCalls);
      factoryCalls := factoryCalls + 1;
      if result.IsErr() {
        return Err(result.Error());
      }
      totalCreated := totalCreated + 1;
      inUse := inUse + 1;
      r := WrapResource(result.Value());
    }

    /** wrap_resource: a fresh handle holding the resource with this pool as its releaser. */
    method WrapResource(resource: T) returns (r: Result<PooledResource<T>, string>)
      modifies this
      ensures r.Ok? && fresh(r.value)
      ensures r.value.resource == Some(resource) && r.value.releaser == this
      ensures outstanding == old(outstanding) + {r.value}
      ensures State() == old(State())
    {
      var handle := new PooledResource.Wrap(resource, this);
      outstanding := outstanding + {handle};
      r := Ok(handle);
    }

    /** do_release, reached only through the releaser of a live handle `h` of this pool. */
    method DoRelease(resource: T, ghost h: PooledResource<T>)
      requires Valid() && h in outstanding && h.resource == Some(resource)
      modifies this
      ensures Valid()
      ensures State() == ReleaseStep(config, Hooks(), old(State()), resource)
      ensures outstanding == old(outstanding) - {h}
    {
      ReleasePreservesInv(config, Hooks(), State(), resource);
      inUse := inUse - 1;
      outstanding := outstanding - {h};
      var reset := resetter(resource);
      if reset.IsErr() {
        discarded := discarded + 1;
        return;
      }
      if config.validateOnRelease && !validator(reset.Value()) {
        discarded := discarded + 1;
        return;
      }
      available := available + [reset.Value()];
    }

    /** with_resource: acquire, apply f, release; an acquire failure is passed on unchanged. */
    method WithResource<U>(f: T -> U) returns (r: Result<U, string>)
      requires Valid()
      modifies this
      ensures Valid() && outstanding == old(outstanding)
      ensures (r, State()) == WithResourceStep(config, Hooks(), old(State()), f)
    {
      var acquired := Acquire();
      if acquired.IsErr() {
        return Err(acquired.Error());
      }
      var handle := acquired.Value();
      r := Ok(handle.Use(f));
      handle.Destroy();
    }

    /** stats: the counters as they are; under the invariant they respect the capacity bound. */
    function Stats(): (st: PoolStats)
      reads this
      ensures st.available == |available| && st.inUse == inUse
      ensures st.totalCreated == totalCreated && st.maxSize == config.maxSize
      ensures Inv(config, State()) ==>
                st.available + st.inUse <= st.maxSize && st.available + st.inUse <= st.totalCreated
    {
      PoolStats(|available|, inUse, totalCreated, config.maxSize)
    }
  }

  /** The thread-safe pool, run sequentially: its lock, condition variable and deadline are not
      modelled, so what remains is the decision it takes once its wait loop has exited. Handles
      it issues release into the inner pool, exactly as its locked do_release does. */
  class ThreadSafePool<T> {
    const pool: Pool<T>

    ghost predicate Valid()
      reads this, pool, pool.outstanding
    {
      pool.Valid()
    }

    constructor (factory: nat -> Result<T, string>, validator: T -> bool,
                 resetter: T -> Result<T, string>, config: PoolConfig)
      requires WellFormed(config)
      ensures Valid() && fresh(pool) && pool.outstanding == {}
      ensures pool.factory == factory && pool.validator == validator
      ensures pool.resetter == resetter && pool.config == config
      ensures pool.State() == Prewarm(config, pool.Hooks())
    {
      pool := new Pool(factory, validator, resetter, config);
    }

    /** acquire after the wait loop; the requires is the loop's exit condition. It never reports
        exhaustion: it pops from the idle set if that is non-empty and otherwise creates. */
    method Acquire() returns (r: Result<PooledResource<T>, string>)
      requires Valid()
      requires |pool.available| > 0 || pool.inUse < pool.config.maxSize
      modifies pool
      ensures Valid()
      ensures pool.State() == AcquireAfterWait(pool.config, pool.Hooks(), old(pool.State())).next
      ensures pool.Issued(r, AcquireAfterWait(pool.config, pool.Hooks(), old(pool.State())).out,
                          old(pool.outstanding))
      ensures r.Ok? ==> fresh(r.value)
    {
      if |pool.available| > 0 {
        r := pool.TakeFront();
        return;
      }
      r := pool.CreateAndWrap();
    }

    /** stats, taken under the lock: the inner pool's snapshot. */
    function Stats(): (st: PoolStats)
      reads this, pool
      ensures st == pool.Stats()
    {
      pool.Stats()
    }
  }

  /** A checked-out resource goes back exactly once, whatever the handle's history: moving a
      live handle leaves the source inert, so destroying the source returns nothing; releasing
      the new handle returns the resource; releasing it again and destroying it do nothing more.
      Altogether the pool sees exactly one release of the resource. */
  method HandleLifecycle<T>(p: Pool<T>, source: PooledResource<T>)
    requires source.Valid() && source.releaser == p
    modifies p, source
    ensures p.Valid() && source.releaser == null
    ensures p.State() == ReleaseStep(p.config, p.Hooks(), old(p.State()), old(source.resource).value)
    ensures p.outstanding == old(p.outstanding) - {source}
  {
    var target := new PooledResource.MoveFrom(source);
    assert source.releaser == null && source !in p.outstanding;
    source.Destroy();
    target.Release();
    target.Release();
    target.Destroy();
  }
}
