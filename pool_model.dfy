/** The pool's acquire/release state machine on plain values. The classes in module Pooling
    update their fields exactly as these functions say; the lemmas here state what the pool
    promises about one step and about sequences of steps. */
module PoolModel {
  import opened Results
  import opened Config

  /** The error an acquire reports when nothing is idle and the pool is at capacity. */
  const ExhaustedError: string := "Pool exhausted: max_size reached"

  /** The three lifecycle callbacks. The factory is an oracle: its k-th call (counting from 0)
      returns factory(k). The resetter returns the reset resource, or an error. */
  datatype Lifecycle<!T> = Lifecycle(
    factory: nat -> Result<T, string>,
    validator: T -> bool,
    resetter: T -> Result<T, string>)

  /** The pool's state: the FIFO idle set (front = index 0), the two counters, how many times the
      factory has been called, and how many created resources have since been discarded. */
  datatype PoolState<T> = PoolState(
    available: seq<T>,
    inUse: nat,
    totalCreated: nat,
    factoryCalls: nat,
    discarded: nat)

  /** What an acquire reports (the resource handed out, or an error) and the state after it. */
  datatype Step<T> = Step(out: Result<T, string>, next: PoolState<T>)

  /** The pool invariant: capacity bounds hold, nothing idle or checked out exceeds max_size, and
      every resource ever created is idle, checked out, or discarded. */
  predicate Inv<T>(c: PoolConfig, s: PoolState<T>)
  {
    WellFormed(c)
    && |s.available| + s.inUse <= c.maxSize
    && |s.available| + s.inUse + s.discarded == s.totalCreated
  }

  // ---------------------------------------------------------------------------------------
  // Pre-warm

  /** The resources the first n factory calls produce, in call order; failures leave no trace. */
  function Successes<T>(factory: nat -> Result<T, string>, n: nat): (s: seq<T>)
    ensures |s| <= n
  {
    if n == 0 then []
    else Successes(factory, n - 1) + (if factory(n - 1).IsOk() then [factory(n - 1).Value()] else [])
  }

  /** The indices among the first n factory calls whose call succeeded. */
  ghost function SuccessIndices<T>(factory: nat -> Result<T, string>, n: nat): set<nat>
  {
    set i: nat | i < n && factory(i).IsOk()
  }

  /** How many of the first n factory calls succeeded. */
  ghost function SuccessCount<T>(factory: nat -> Result<T, string>, n: nat): nat
  {
    |SuccessIndices(factory, n)|
  }

  /** Pre-warm keeps exactly one resource per successful factory call. */
  lemma {:induction false} SuccessesCount<T>(factory: nat -> Result<T, string>, n: nat)
    ensures |Successes(factory, n)| == SuccessCount(factory, n)
  {
    if n == 0 {
      assert SuccessIndices(factory, n) == {};
    } else {
      SuccessesCount(factory, n - 1);
      var before := SuccessIndices(factory, n - 1);
      if factory(n - 1).IsOk() {
        assert SuccessIndices(factory, n) == before + {n - 1};
        assert n - 1 !in before;
      } else {
        assert SuccessIndices(factory, n) == before;
      }
    }
  }

  /** Pre-warm keeps the successes in call order: the resource made by the i-th call, when that
      call succeeded, sits at the position given by the number of earlier successful calls. With
      SuccessesCount this determines the idle set completely. */
  lemma {:induction false} SuccessesInCallOrder<T>(factory: nat -> Result<T, string>, n: nat)
    ensures forall i :: 0 <= i < n && factory(i).IsOk() ==>
              SuccessCount(factory, i) < |Successes(factory, n)|
              && Successes(factory, n)[SuccessCount(factory, i)] == factory(i).Value()
  {
    if n > 0 {
      SuccessesInCallOrder(factory, n - 1);
      SuccessesCount(factory, n - 1);
      var prev := Successes(factory, n - 1);
      var all := Successes(factory, n);
      forall i | 0 <= i < n && factory(i).IsOk()
        ensures SuccessCount(factory, i) < |all| && all[SuccessCount(factory, i)] == factory(i).Value()
      {
        if i < n - 1 {
          assert all[SuccessCount(factory, i)] == prev[SuccessCount(factory, i)];
        } else {
          assert all[|prev|] == factory(n - 1).Value();
        }
      }
    }
  }

  /** The state the constructor leaves: min_size factory calls, the successes idle in call order,
      each success counted as created, nothing checked out or discarded. */
  function Prewarm<T>(c: PoolConfig, h: Lifecycle<T>): (p: PoolState<T>)
    ensures p.inUse == 0 && p.discarded == 0 && p.factoryCalls == c.minSize
    ensures p.totalCreated == |p.available| == SuccessCount(h.factory, c.minSize)
  {
    SuccessesCount(h.factory, c.minSize);
    var idle := Successes(h.factory, c.minSize);
    PoolState(idle, 0, |idle|, c.minSize, 0)
  }

  /** Every resource pre-warm keeps came from a successful factory call, and when every call
      succeeds all of them are kept. */
  lemma {:induction false} SuccessesExact<T>(factory: nat -> Result<T, string>, n: nat)
    ensures forall k :: 0 <= k < |Successes(factory, n)| ==>
              exists i :: 0 <= i < n && factory(i) == Ok(Successes(factory, n)[k])
    ensures (forall i :: 0 <= i < n ==> factory(i).IsOk()) ==> |Successes(factory, n)| == n
  {
    if n > 0 {
      SuccessesExact(factory, n - 1);
      var prev := Successes(factory, n - 1);
      var all := Successes(factory, n);
      forall k | 0 <= k < |all|
        ensures exists i :: 0 <= i < n && factory(i) == Ok(all[k])
      {
        if k < |prev| {
          assert all[k] == prev[k];
          var i :| 0 <= i < n - 1 && factory(i) == Ok(prev[k]);
          assert 0 <= i < n && factory(i) == Ok(all[k]);
        } else {
          assert factory(n - 1) == Ok(all[k]);
        }
      }
    } else {
      assert Successes(factory, n) == [];
    }
  }

  /** After construction nothing is checked out, the idle set holds exactly the successful
      pre-warm creations (at most min_size of them), and the invariant holds. */
  lemma PrewarmEstablishesInv<T>(c: PoolConfig, h: Lifecycle<T>)
    requires WellFormed(c)
    ensures Inv(c, Prewarm(c, h))
    ensures Prewarm(c, h).inUse == 0 && Prewarm(c, h).discarded == 0
    ensures |Prewarm(c, h).available| == Prewarm(c, h).totalCreated <= c.minSize
    ensures Prewarm(c, h).totalCreated == SuccessCount(h.factory, c.minSize)
    ensures Prewarm(c, h).factoryCalls == c.minSize
  {
  }

  // ---------------------------------------------------------------------------------------
  // Acquire

  /** create_and_wrap: one factory call; a failure is reported verbatim and changes no counter,
      a success is counted as created and as checked out. */
  function CreateStep<T>(h: Lifecycle<T>, s: PoolState<T>): (st: Step<T>)
    ensures st.out == h.factory(s.factoryCalls) && st.next.factoryCalls == s.factoryCalls + 1
    ensures st.next.available == s.available && st.next.discarded == s.discarded
    ensures st.out.IsOk() ==> st.next.totalCreated == s.totalCreated + 1 && st.next.inUse == s.inUse + 1
    ensures st.out.IsErr() ==> st.next.totalCreated == s.totalCreated && st.next.inUse == s.inUse
  {
    var result := h.factory(s.factoryCalls);
    var called := s.(factoryCalls := s.factoryCalls + 1);
    if result.IsErr() then Step(Err(result.Error()), called)
    else Step(Ok(result.Value()), called.(totalCreated := called.totalCreated + 1,
                                          inUse := called.inUse + 1))
  }

  /** Taking the front of a non-empty idle set: when acquire-time validation rejects it, it is
      discarded and the factory is called once instead, with no capacity check. */
  function TakeFront<T>(c: PoolConfig, h: Lifecycle<T>, s: PoolState<T>): (st: Step<T>)
    requires |s.available| > 0
    ensures st.next.available == s.available[1..]
    ensures st.out.IsOk() ==> st.next.inUse == s.inUse + 1
    ensures st.out.IsErr() ==> st.next.inUse == s.inUse && st.next.totalCreated == s.totalCreated
    ensures Inv(c, s) ==> Inv(c, st.next)
  {
    var resource := s.available[0];
    var popped := s.(available := s.available[1..]);
    if c.validateOnAcquire && !h.validator(resource) then
      CreateStep(h, popped.(discarded := popped.discarded + 1))
    else
      Step(Ok(resource), popped.(inUse := popped.inUse + 1))
  }

  /** Pool::acquire: reuse the oldest idle resource, else report exhaustion at capacity,
      else create. */
  function AcquireStep<T>(c: PoolConfig, h: Lifecycle<T>, s: PoolState<T>): (st: Step<T>)
    ensures st.out.IsOk() ==> st.next.inUse == s.inUse + 1
    ensures st.out.IsErr() ==> st.next.inUse == s.inUse && st.next.totalCreated == s.totalCreated
  {
    if |s.available| > 0 then TakeFront(c, h, s)
    else if s.inUse >= c.maxSize then Step(Err(ExhaustedError), s)
    else CreateStep(h, s)
  }

  /** ThreadSafePool::acquire once its wait loop has exited: the same decision without the
      exhaustion branch. The requires is the loop's exit condition. */
  function AcquireAfterWait<T>(c: PoolConfig, h: Lifecycle<T>, s: PoolState<T>): (st: Step<T>)
    requires |s.available| > 0 || s.inUse < c.maxSize
    ensures st.out.IsOk() ==> st.next.inUse == s.inUse + 1
    ensures st.out.IsErr() ==> st.out == h.factory(s.factoryCalls)
    ensures Inv(c, s) ==> Inv(c, st.next)
  {
    if |s.available| > 0 then TakeFront(c, h, s)
    else CreateStep(h, s)
  }

  // ---------------------------------------------------------------------------------------
  // Release and the bracket pattern

  /** do_release: one fewer checked out; the reset resource goes to the back of the idle set
      unless the reset fails or release-time validation rejects it, in which case it is discarded.
      The requires holds because only a live handle issued by this pool releases into it. */
  function ReleaseStep<T>(c: PoolConfig, h: Lifecycle<T>, s: PoolState<T>, resource: T): (next: PoolState<T>)
    requires s.inUse > 0
    ensures next.inUse == s.inUse - 1
    ensures next.totalCreated == s.totalCreated && next.factoryCalls == s.factoryCalls
    ensures |next.available| + next.discarded == |s.available| + s.discarded + 1
    ensures Inv(c, s) ==> Inv(c, next)
  {
    var returned := s.(inUse := s.inUse - 1);
    var reset := h.resetter(resource);
    if reset.IsErr() then returned.(discarded := returned.discarded + 1)
    else if c.validateOnRelease && !h.validator(reset.Value()) then
      returned.(discarded := returned.discarded + 1)
    else returned.(available := returned.available + [reset.Value()])
  }

  /** with_resource: acquire; on failure report the same error; on success apply f, then release. */
  function WithResourceStep<T, U>(c: PoolConfig, h: Lifecycle<T>, s: PoolState<T>, f: T -> U)
    : (r: (Result<U, string>, PoolState<T>))
    ensures r.0.IsOk() <==> AcquireStep(c, h, s).out.IsOk()
    ensures r.0.IsOk() ==> r.1.inUse == s.inUse && r.0.Value() == f(AcquireStep(c, h, s).out.Value())
    ensures Inv(c, s) ==> Inv(c, r.1)
  {
    var acquired := AcquireStep(c, h, s);
    if acquired.out.IsErr() then (Err(acquired.out.Error()), acquired.next)
    else
      var resource := acquired.out.Value();
      (Ok(f(resource)), ReleaseStep(c, h, acquired.next, resource))
  }

  // ---------------------------------------------------------------------------------------
  // One step at a time

  /** Non-empty idle set, validation passing or off: the front element is handed out and removed,
      one more is checked out, and nothing else changes (no factory call, no creation). */
  lemma AcquireReusesFront<T>(c: PoolConfig, h: Lifecycle<T>, s: PoolState<T>)
    requires |s.available| > 0
    requires !c.validateOnAcquire || h.validator(s.available[0])
    ensures AcquireStep(c, h, s) ==
            Step(Ok(s.available[0]), s.(available := s.available[1..], inUse := s.inUse + 1))
  {
  }

  /** Non-empty idle set whose front fails acquire-time validation: the front is discarded and the
      factory is called exactly once; its success is counted as created and checked out, its
      failure is reported verbatim with both counters unchanged. */
  lemma AcquireReplacesRejectedFront<T>(c: PoolConfig, h: Lifecycle<T>, s: PoolState<T>)
    requires |s.available| > 0 && c.validateOnAcquire && !h.validator(s.available[0])
    ensures var st := AcquireStep(c, h, s);
      && st.out == h.factory(s.factoryCalls)
      && st.next.available == s.available[1..]
      && st.next.factoryCalls == s.factoryCalls + 1
      && st.next.discarded == s.discarded + 1
      && (st.out.IsOk() ==> st.next.totalCreated == s.totalCreated + 1 && st.next.inUse == s.inUse + 1)
      && (st.out.IsErr() ==> st.next.totalCreated == s.totalCreated && st.next.inUse == s.inUse)
  {
  }

  /** Empty idle set at capacity: exhaustion is reported, the factory is not called and the state
      is unchanged. */
  lemma AcquireExhausted<T>(c: PoolConfig, h: Lifecycle<T>, s: PoolState<T>)
    requires s.available == [] && s.inUse >= c.maxSize
    ensures AcquireStep(c, h, s) == Step(Err(ExhaustedError), s)
  {
  }

  /** Empty idle set with room: the factory is called once; its error is reported verbatim with
      the counters unchanged, its success increments both total_created and in_use. */
  lemma AcquireCreatesWithRoom<T>(c: PoolConfig, h: Lifecycle<T>, s: PoolState<T>)
    requires s.available == [] && s.inUse < c.maxSize
    ensures var st := AcquireStep(c, h, s);
      && st.out == h.factory(s.factoryCalls)
      && st.next.available == [] && st.next.factoryCalls == s.factoryCalls + 1
      && st.next.discarded == s.discarded
      && (st.out.IsOk() ==> st.next.totalCreated == s.totalCreated + 1 && st.next.inUse == s.inUse + 1)
      && (st.out.IsErr() ==> st.next.totalCreated == s.totalCreated && st.next.inUse == s.inUse)
  {
  }

  /** A validator that rejects everything on acquire makes every successful acquire a fresh
      creation: total_created strictly increases. */
  lemma RejectingValidatorAlwaysCreates<T>(c: PoolConfig, h: Lifecycle<T>, s: PoolState<T>)
    requires c.validateOnAcquire && forall x :: !h.validator(x)
    ensures AcquireStep(c, h, s).out.IsOk() ==>
            AcquireStep(c, h, s).next.totalCreated == s.totalCreated + 1
  {
  }

  /** Release always gives back one checked-out slot and never touches the creation counters; the
      resource is appended to the back of the idle set exactly when the reset succeeds and
      release-time validation (if on) accepts the reset resource. */
  lemma ReleaseOutcome<T>(c: PoolConfig, h: Lifecycle<T>, s: PoolState<T>, resource: T)
    requires s.inUse > 0
    ensures var next := ReleaseStep(c, h, s, resource);
      var reset := h.resetter(resource);
      var kept := reset.IsOk() && (!c.validateOnRelease || h.validator(reset.Value()));
      && next.inUse == s.inUse - 1
      && next.totalCreated == s.totalCreated && next.factoryCalls == s.factoryCalls
      && (kept ==> next.available == s.available + [reset.Value()] && next.discarded == s.discarded)
      && (!kept ==> next.available == s.available && next.discarded == s.discarded + 1)
  {
  }

  /** Acquire keeps the invariant. */
  lemma AcquirePreservesInv<T>(c: PoolConfig, h: Lifecycle<T>, s: PoolState<T>)
    requires Inv(c, s)
    ensures Inv(c, AcquireStep(c, h, s).next)
  {
  }

  /** Release keeps the invariant. */
  lemma ReleasePreservesInv<T>(c: PoolConfig, h: Lifecycle<T>, s: PoolState<T>, resource: T)
    requires Inv(c, s) && s.inUse > 0
    ensures Inv(c, ReleaseStep(c, h, s, resource))
  {
  }

  /** What the invariant gives: in_use never exceeds max_size, idle plus checked out never exceeds
      the number created, with equality as long as nothing has been discarded. */
  lemma InvBounds<T>(c: PoolConfig, s: PoolState<T>)
    requires Inv(c, s)
    ensures s.inUse <= c.maxSize
    ensures |s.available| + s.inUse <= s.totalCreated
    ensures s.discarded == 0 ==> |s.available| + s.inUse == s.totalCreated
  {
  }

  /** After the thread-safe pool's wait loop the decision never reports exhaustion: it coincides
      with the single-threaded acquire, keeps the invariant, and any error it reports is the
      factory's own, from the one factory call it made. */
  lemma AcquireAfterWaitAgrees<T>(c: PoolConfig, h: Lifecycle<T>, s: PoolState<T>)
    requires |s.available| > 0 || s.inUse < c.maxSize
    ensures AcquireAfterWait(c, h, s) == AcquireStep(c, h, s)
    ensures Inv(c, s) ==> Inv(c, AcquireAfterWait(c, h, s).next)
    ensures AcquireAfterWait(c, h, s).out.IsErr() ==>
            AcquireAfterWait(c, h, s).next.factoryCalls == s.factoryCalls + 1
            && AcquireAfterWait(c, h, s).out == h.factory(s.factoryCalls)
  {
  }

  /** with_resource: an acquire failure is reported with the same error and f is never applied;
      a success yields f of the acquired resource and releases it, so in_use ends where it began. */
  lemma WithResourceOutcome<T, U>(c: PoolConfig, h: Lifecycle<T>, s: PoolState<T>, f: T -> U)
    ensures var (r, next) := WithResourceStep(c, h, s, f);
      var acquired := AcquireStep(c, h, s);
      && r.IsOk() == acquired.out.IsOk()
      && (acquired.out.IsErr() ==> r.Error() == acquired.out.Error() && next == acquired.next)
      && (acquired.out.IsOk() ==> r.Value() == f(acquired.out.Value()) && next.inUse == s.inUse)
    ensures Inv(c, s) ==> Inv(c, WithResourceStep(c, h, s, f).1)
  {
    if Inv(c, s) {
      AcquirePreservesInv(c, h, s);
    }
  }

  // ---------------------------------------------------------------------------------------
  // Sequences of steps

  /** n acquires in a row with no release in between: what each reported, and the final state. */
  function AcquireRepeatedly<T>(c: PoolConfig, h: Lifecycle<T>, s: PoolState<T>, n: nat)
    : (seq<Result<T, string>>, PoolState<T>)
    decreases n
  {
    if n == 0 then ([], s)
    else
      var st := AcquireStep(c, h, s);
      var rest := AcquireRepeatedly(c, h, st.next, n - 1);
      ([st.out] + rest.0, rest.1)
  }

  /** The state after n with_resource calls in a row. */
  function UseRepeatedly<T>(c: PoolConfig, h: Lifecycle<T>, s: PoolState<T>, n: nat): PoolState<T>
    decreases n
  {
    if n == 0 then s
    else UseRepeatedly(c, h, WithResourceStep(c, h, s, (x: T) => x).1, n - 1)
  }

  /** Every factory call from the k-th on succeeds. */
  ghost predicate FactorySucceedsFrom<T>(h: Lifecycle<T>, k: nat)
  {
    forall i :: k <= i ==> h.factory(i).IsOk()
  }

  /** With a factory that keeps succeeding and no acquire-time rejection, acquiring without
      releasing succeeds exactly until in_use reaches max_size; the next acquire reports
      exhaustion and changes nothing. */
  lemma {:induction false} FillsToCapacity<T>(c: PoolConfig, h: Lifecycle<T>, s: PoolState<T>, n: nat)
    requires Inv(c, s) && n == c.maxSize - s.inUse
    requires FactorySucceedsFrom(h, s.factoryCalls)
    requires !c.validateOnAcquire || forall x :: h.validator(x)
    ensures var (outs, last) := AcquireRepeatedly(c, h, s, n);
      && |outs| == n && (forall k :: 0 <= k < n ==> outs[k].IsOk())
      && last.inUse == c.maxSize && last.available == []
      && AcquireStep(c, h, last) == Step(Err(ExhaustedError), last)
    decreases n
  {
    if n > 0 {
      var st := AcquireStep(c, h, s);
      AcquirePreservesInv(c, h, s);
      if |s.available| > 0 {
        assert !c.validateOnAcquire || h.validator(s.available[0]);
      } else {
        assert h.factory(s.factoryCalls).IsOk();
      }
      assert st.out.IsOk();
      FillsToCapacity(c, h, st.next, n - 1);
    }
  }

  /** A resetter that always fails discards every released resource: starting with nothing idle
      and room to create, each with_resource call creates one fresh resource and discards it, so
      after n calls total_created has grown by n, the idle set is still empty and in_use is back
      where it began. */
  lemma {:induction false} FailingResetDiscardsAll<T>(c: PoolConfig, h: Lifecycle<T>, s: PoolState<T>, n: nat)
    requires forall x :: h.resetter(x).IsErr()
    requires FactorySucceedsFrom(h, s.factoryCalls)
    requires s.available == [] && s.inUse < c.maxSize
    ensures UseRepeatedly(c, h, s, n) ==
            s.(totalCreated := s.totalCreated + n, factoryCalls := s.factoryCalls + n,
               discarded := s.discarded + n)
    decreases n
  {
    if n > 0 {
      var once := WithResourceStep(c, h, s, (x: T) => x).1;
      assert h.factory(s.factoryCalls).IsOk();
      assert once == s.(totalCreated := s.totalCreated + 1, factoryCalls := s.factoryCalls + 1,
                        discarded := s.discarded + 1);
      FailingResetDiscardsAll(c, h, once, n - 1);
    }
  }

  /** The concrete run with min_size 2 and max_size 3, validation off and a factory that always
      succeeds: construction leaves two idle; two acquires empty the idle set; a third creates a
      fresh resource; a fourth reports exhaustion. */
  lemma ScenarioMinTwoMaxThree<T>(h: Lifecycle<T>)
    requires FactorySucceedsFrom(h, 0)
    ensures var c := DefaultConfig.WithMinSize(2).WithMaxSize(3).WithValidation(false, false);
      var s0 := Prewarm(c, h);
      var s1 := AcquireStep(c, h, s0).next;
      var s2 := AcquireStep(c, h, s1).next;
      var s3 := AcquireStep(c, h, s2);
      && |s0.available| == 2 && s0.inUse == 0 && s0.totalCreated == 2
      && s2.available == [] && s2.inUse == 2
      && s3.out.IsOk() && s3.next.inUse == 3 && s3.next.totalCreated == 3
      && AcquireStep(c, h, s3.next).out == Err(ExhaustedError)
  {
    var c := DefaultConfig.WithMinSize(2).WithMaxSize(3).WithValidation(false, false);
    assert h.factory(0).IsOk() && h.factory(1).IsOk() && h.factory(2).IsOk();
    assert Successes(h.factory, 2) == [h.factory(0).Value(), h.factory(1).Value()];
  }
}
