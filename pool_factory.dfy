/** The factory layer: configuration validation gates the construction of every pool, and the
    convenience creators fill in an always-accepting validator and a resetter that always succeeds
    and leaves the resource as it is. */
module Factory {
  import opened Results
  import opened Config
  import opened PoolModel
  import opened Pooling

  /** validate_config: the capacity must be non-zero (checked first), and the minimum must not
      exceed the maximum. */
  function ValidateConfig(c: PoolConfig): (r: Result<(), string>)
    ensures r.IsOk() <==> WellFormed(c)
    ensures c.maxSize == 0 ==> r == Err("max_size cannot be 0")
    ensures c.maxSize != 0 && c.minSize > c.maxSize ==> r == Err("min_size cannot exceed max_size")
  {
    if c.maxSize == 0 then Err("max_size cannot be 0")
    else if c.minSize > c.maxSize then Err("min_size cannot exceed max_size")
    else Ok(())
  }

  /** The validator `create` supplies: every resource is valid. */
  function AcceptAll<T>(): T -> bool
  {
    _ => true
  }

  /** The resetter `create` and `create_validated` supply: it succeeds and changes nothing. */
  function ResetNothing<T>(): T -> Result<T, string>
  {
    x => Ok(x)
  }

  /** A freshly built pool: consistent, nothing checked out, callbacks and configuration as given,
      and its state the pre-warm state. */
  ghost predicate Built<T>(p: Pool<T>, factory: nat -> Result<T, string>, validator: T -> bool,
                           resetter: T -> Result<T, string>, config: PoolConfig)
    reads p, p.outstanding
  {
    p.Valid() && p.outstanding == {}
    && p.factory == factory && p.validator == validator && p.resetter == resetter
    && p.config == config
    && p.State() == Prewarm(config, p.Hooks())
  }

  /** create_with_lifecycle: an invalid configuration is reported verbatim and builds no pool;
      otherwise a new, pre-warmed pool. */
  method CreateWithLifecycle<T>(factory: nat -> Result<T, string>, validator: T -> bool,
                                resetter: T -> Result<T, string>, config: PoolConfig := DefaultConfig)
    returns (r: Result<Pool<T>, string>)
    ensures r.IsOk() <==> ValidateConfig(config).IsOk()
    ensures r.IsErr() ==> r.Error() == ValidateConfig(config).Error()
    ensures r.IsOk() ==> fresh(r.value) && Built(r.value, factory, validator, resetter, config)
  {
    var validation := ValidateConfig(config);
    if validation.IsErr() {
      return Err(validation.Error());
    }
    var pool := new Pool(factory, validator, resetter, config);
    r := Ok(pool);
  }

  /** create_validated: a caller-supplied validator and the do-nothing resetter. */
  method CreateValidated<T>(factory: nat -> Result<T, string>, validator: T -> bool,
                            config: PoolConfig := DefaultConfig)
    returns (r: Result<Pool<T>, string>)
    ensures r.IsOk() <==> ValidateConfig(config).IsOk()
    ensures r.IsErr() ==> r.Error() == ValidateConfig(config).Error()
    ensures r.IsOk() ==> fresh(r.value) && Built(r.value, factory, validator, ResetNothing(), config)
  {
    r := CreateWithLifecycle(factory, validator, ResetNothing(), config);
  }

  /** create: the always-accepting validator and the do-nothing resetter. */
  method Create<T>(factory: nat -> Result<T, string>, config: PoolConfig := DefaultConfig)
    returns (r: Result<Pool<T>, string>)
    ensures r.IsOk() <==> ValidateConfig(config).IsOk()
    ensures r.IsErr() ==> r.Error() == ValidateConfig(config).Error()
    ensures r.IsOk() ==> fresh(r.value) && Built(r.value, factory, AcceptAll(), ResetNothing(), config)
  {
    r := CreateWithLifecycle(factory, AcceptAll(), ResetNothing(), config);
  }

  /** create_thread_safe_with_lifecycle: the same gate, then a new thread-safe pool. */
  method CreateThreadSafeWithLifecycle<T>(factory: nat -> Result<T, string>, validator: T -> bool,
                                          resetter: T -> Result<T, string>,
                                          config: PoolConfig := DefaultConfig)
    returns (r: Result<ThreadSafePool<T>, string>)
    ensures r.IsOk() <==> ValidateConfig(config).IsOk()
    ensures r.IsErr() ==> r.Error() == ValidateConfig(config).Error()
    ensures r.IsOk() ==> fresh(r.value) && fresh(r.value.pool)
                         && Built(r.value.pool, factory, validator, resetter, config)
  {
    var validation := ValidateConfig(config);
    if validation.IsErr() {
      return Err(validation.Error());
    }
    var pool := new ThreadSafePool(factory, validator, resetter, config);
    r := Ok(pool);
  }

  /** create_thread_safe_validated. */
  method CreateThreadSafeValidated<T>(factory: nat -> Result<T, string>, validator: T -> bool,
                                      config: PoolConfig := DefaultConfig)
    returns (r: Result<ThreadSafePool<T>, string>)
    ensures r.IsOk() <==> ValidateConfig(config).IsOk()
    ensures r.IsErr() ==> r.Error() == ValidateConfig(config).Error()
    ensures r.IsOk() ==> fresh(r.value) && fresh(r.value.pool)
                         && Built(r.value.pool, factory, validator, ResetNothing(), config)
  {
    r := CreateThreadSafeWithLifecycle(factory, validator, ResetNothing(), config);
  }

  /** create_thread_safe. */
  method CreateThreadSafe<T>(factory: nat -> Result<T, string>, config: PoolConfig := DefaultConfig)
    returns (r: Result<ThreadSafePool<T>, string>)
    ensures r.IsOk() <==> ValidateConfig(config).IsOk()
    ensures r.IsErr() ==> r.Error() == ValidateConfig(config).Error()
    ensures r.IsOk() ==> fresh(r.value) && fresh(r.value.pool)
                         && Built(r.value.pool, factory, AcceptAll(), ResetNothing(), config)
  {
    r := CreateThreadSafeWithLifecycle(factory, AcceptAll(), ResetNothing(), config);
  }

  /** make_pool: exactly create on the same arguments. */
  method MakePool<T>(factory: nat -> Result<T, string>, config: PoolConfig := DefaultConfig)
    returns (r: Result<Pool<T>, string>)
    ensures r.IsOk() <==> ValidateConfig(config).IsOk()
    ensures r.IsErr() ==> r.Error() == ValidateConfig(config).Error()
    ensures r.IsOk() ==> fresh(r.value) && Built(r.value, factory, AcceptAll(), ResetNothing(), config)
  {
    r := Create(factory, config);
  }

  /** make_thread_safe_pool: exactly create_thread_safe on the same arguments. */
  method MakeThreadSafePool<T>(factory: nat -> Result<T, string>, config: PoolConfig := DefaultConfig)
    returns (r: Result<ThreadSafePool<T>, string>)
    ensures r.IsOk() <==> ValidateConfig(config).IsOk()
    ensures r.IsErr() ==> r.Error() == ValidateConfig(config).Error()
    ensures r.IsOk() ==> fresh(r.value) && fresh(r.value.pool)
                         && Built(r.value.pool, factory, AcceptAll(), ResetNothing(), config)
  {
    r := CreateThreadSafe(factory, config);
  }

  /** The first check wins: a zero capacity is reported as such even when the minimum is larger. */
  lemma ZeroCapacityReportedFirst()
    ensures ValidateConfig(DefaultConfig.WithMinSize(1).WithMaxSize(0)) == Err("max_size cannot be 0")
  {
  }

  /** The callbacks `create` supplies never discard on release and never replace on acquire: a
      released resource always goes to the back of the idle set unchanged, and a non-empty idle
      set always hands out its front. */
  lemma DefaultCallbacksNeverDiscard<T>(c: PoolConfig, factory: nat -> Result<T, string>,
                                        s: PoolState<T>, resource: T)
    ensures var h := Lifecycle(factory, AcceptAll(), ResetNothing());
      && (s.inUse > 0 ==>
            ReleaseStep(c, h, s, resource) ==
            s.(inUse := s.inUse - 1, available := s.available + [resource]))
      && (|s.available| > 0 ==>
            AcquireStep(c, h, s) ==
            Step(Ok(s.available[0]), s.(available := s.available[1..], inUse := s.inUse + 1)))
  {
  }

  /** With the callbacks `create` supplies, a with_resource call leaves in_use where it was and
      keeps the number of idle resources, reusing them in FIFO order: the front goes to the back. */
  lemma DefaultCallbacksRotateIdle<T, U>(c: PoolConfig, factory: nat -> Result<T, string>,
                                         s: PoolState<T>, f: T -> U)
    requires |s.available| > 0
    ensures var h := Lifecycle(factory, AcceptAll(), ResetNothing());
      var (r, next) := WithResourceStep(c, h, s, f);
      && r == Ok(f(s.available[0]))
      && next.inUse == s.inUse
      && next.available == s.available[1..] + [s.available[0]]
      && next.totalCreated == s.totalCreated && next.discarded == s.discarded
  {
  }
}
