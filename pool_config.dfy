/** Pool configuration: an immutable value whose builders return modified copies. */
module Config {

  /** Sizes are unbounded naturals (the source's size_t never comes near its limit here);
      timeouts are signed millisecond counts, as std::chrono::milliseconds is signed. */
  datatype PoolConfig = PoolConfig(
    minSize: nat,
    maxSize: nat,
    acquireTimeoutMs: int,
    idleTimeoutMs: int,
    validateOnAcquire: bool,
    validateOnRelease: bool)
  {
    /** A copy with a new minimum size and every other field as in the receiver. */
    function WithMinSize(n: nat): (c: PoolConfig)
      ensures c.minSize == n
      ensures c.maxSize == maxSize && c.acquireTimeoutMs == acquireTimeoutMs
      ensures c.idleTimeoutMs == idleTimeoutMs
      ensures c.validateOnAcquire == validateOnAcquire && c.validateOnRelease == validateOnRelease
    {
      this.(minSize := n)
    }

    /** A copy with a new maximum size and every other field as in the receiver. */
    function WithMaxSize(n: nat): (c: PoolConfig)
      ensures c.maxSize == n
      ensures c.minSize == minSize && c.acquireTimeoutMs == acquireTimeoutMs
      ensures c.idleTimeoutMs == idleTimeoutMs
      ensures c.validateOnAcquire == validateOnAcquire && c.validateOnRelease == validateOnRelease
    {
      this.(maxSize := n)
    }

    /** A copy with a new acquire timeout and every other field as in the receiver. */
    function WithAcquireTimeout(t: int): (c: PoolConfig)
      ensures c.acquireTimeoutMs == t
      ensures c.minSize == minSize && c.maxSize == maxSize
      ensures c.idleTimeoutMs == idleTimeoutMs
      ensures c.validateOnAcquire == validateOnAcquire && c.validateOnRelease == validateOnRelease
    {
      this.(acquireTimeoutMs := t)
    }

    /** A copy with a new idle timeout and every other field as in the receiver. */
    function WithIdleTimeout(t: int): (c: PoolConfig)
      ensures c.idleTimeoutMs == t
      ensures c.minSize == minSize && c.maxSize == maxSize
      ensures c.acquireTimeoutMs == acquireTimeoutMs
      ensures c.validateOnAcquire == validateOnAcquire && c.validateOnRelease == validateOnRelease
    {
      this.(idleTimeoutMs := t)
    }

    /** A copy with both validation flags replaced and the sizes and timeouts kept. */
    function WithValidation(onAcquire: bool, onRelease: bool): (c: PoolConfig)
      ensures c.validateOnAcquire == onAcquire && c.validateOnRelease == onRelease
      ensures c.minSize == minSize && c.maxSize == maxSize
      ensures c.acquireTimeoutMs == acquireTimeoutMs && c.idleTimeoutMs == idleTimeoutMs
    {
      this.(validateOnAcquire := onAcquire, validateOnRelease := onRelease)
    }
  }

  /** The capacity bounds a pool needs; the type does not enforce them, pool construction does. */
  predicate WellFormed(c: PoolConfig)
  {
    1 <= c.maxSize && c.minSize <= c.maxSize
  }

  /** The default configuration: no pre-warm, ten resources at most, a 30 s acquire timeout,
      a 5 min idle timeout, validation on acquire only. */
  const DefaultConfig: PoolConfig := PoolConfig(0, 10, 30_000, 300_000, true, false)

  const ThreadPoolConfig: PoolConfig :=
    DefaultConfig.WithMinSize(4).WithMaxSize(16).WithValidation(false, false)

  const ConnectionPoolConfig: PoolConfig :=
    DefaultConfig.WithMinSize(2).WithMaxSize(20).WithValidation(true, true)

  const MemoryPoolConfig: PoolConfig :=
    DefaultConfig.WithMinSize(8).WithMaxSize(64).WithValidation(false, false)

  /** The default field values. */
  lemma DefaultValues()
    ensures DefaultConfig.minSize == 0 && DefaultConfig.maxSize == 10
    ensures DefaultConfig.acquireTimeoutMs == 30_000 && DefaultConfig.idleTimeoutMs == 300_000
    ensures DefaultConfig.validateOnAcquire && !DefaultConfig.validateOnRelease
    ensures WellFormed(DefaultConfig)
  {
  }

  /** The predefined configurations hold the stated sizes and flags, keep the default
      timeouts, and each meets the capacity bounds a pool needs. */
  lemma PredefinedConfigs()
    ensures ThreadPoolConfig == PoolConfig(4, 16, 30_000, 300_000, false, false)
    ensures ConnectionPoolConfig == PoolConfig(2, 20, 30_000, 300_000, true, true)
    ensures MemoryPoolConfig == PoolConfig(8, 64, 30_000, 300_000, false, false)
    ensures WellFormed(ThreadPoolConfig) && WellFormed(ConnectionPoolConfig)
    ensures WellFormed(MemoryPoolConfig)
  {
  }

  /** Builders touch only their own field: setting any field and then setting it back to its old
      value gives the receiver itself, and of two settings of the same field the last one wins. */
  lemma BuildersRoundTrip(c: PoolConfig, n: nat, m: nat, t: int, u: int, a: bool, r: bool)
    ensures c.WithMinSize(n).WithMinSize(c.minSize) == c
    ensures c.WithMaxSize(n).WithMaxSize(c.maxSize) == c
    ensures c.WithAcquireTimeout(t).WithAcquireTimeout(c.acquireTimeoutMs) == c
    ensures c.WithIdleTimeout(t).WithIdleTimeout(c.idleTimeoutMs) == c
    ensures c.WithValidation(a, r).WithValidation(c.validateOnAcquire, c.validateOnRelease) == c
    ensures c.WithMinSize(n).WithMinSize(m) == c.WithMinSize(m)
    ensures c.WithMaxSize(n).WithMaxSize(m) == c.WithMaxSize(m)
    ensures c.WithAcquireTimeout(t).WithAcquireTimeout(u) == c.WithAcquireTimeout(u)
    ensures c.WithIdleTimeout(t).WithIdleTimeout(u) == c.WithIdleTimeout(u)
  {
  }
}
