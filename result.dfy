/** The fallible-result value used by every operation of the pool that can fail.
    A Result holds exactly one of a success value or an error value; it is never
    changed after it is built, and every operator below builds a new one. */
module Results {

  datatype Result<T, E> = Ok(value: T) | Err(error: E) {

    /** True exactly for a success value. */
    predicate IsOk(): (b: bool)
      ensures b <==> this.Ok?
    {
      this.Ok?
    }

    /** The negation of IsOk: a Result is never both and never neither. */
    predicate IsErr(): (b: bool)
      ensures b == !IsOk()
      ensures b <==> this.Err?
    {
      !IsOk()
    }

    /** The success value; asking a failure for it is a contract violation. */
    function Value(): (v: T)
      requires IsOk()
      ensures this == Ok(v)
    {
      value
    }

    /** The error value; asking a success for it is a contract violation. */
    function Error(): (e: E)
      requires IsErr()
      ensures this == Err(e)
    {
      error
    }

    /** Transforms the success value and passes an error through untouched. */
    function Map<U>(f: T -> U): (r: Result<U, E>)
      ensures r.IsOk() == IsOk()
      ensures IsOk() ==> r.Value() == f(Value())
      ensures IsErr() ==> r.Error() == Error()
    {
      if IsOk() then Ok(f(Value())) else Err(Error())
    }

    /** Transforms the error value and passes a success through untouched. */
    function MapErr<F>(f: E -> F): (r: Result<T, F>)
      ensures r.IsOk() == IsOk()
      ensures IsOk() ==> r.Value() == Value()
      ensures IsErr() ==> r.Error() == f(Error())
    {
      if IsErr() then Err(f(Error())) else Ok(Value())
    }

    /** Chains a fallible step; a failure short-circuits without consulting f. */
    function AndThen<U>(f: T -> Result<U, E>): (r: Result<U, E>)
      ensures IsOk() ==> r == f(Value())
      ensures IsErr() ==> r.IsErr() && r.Error() == Error()
    {
      if IsOk() then f(Value()) else Err(Error())
    }

    /** Recovers from a failure with a fallible step; a success is kept as it is. */
    function OrElse(f: E -> Result<T, E>): (r: Result<T, E>)
      ensures IsOk() ==> r == this
      ensures IsErr() ==> r == f(Error())
    {
      if IsOk() then this else f(Error())
    }

    /** The success value, or the supplied default for a failure. */
    function ValueOr(default: T): (v: T)
      ensures IsOk() ==> v == Value()
      ensures IsErr() ==> v == default
    {
      if IsOk() then Value() else default
    }

    /** Exhaustive dispatch: onOk sees the success value, onErr the error value. */
    function Match<R>(onOk: T -> R, onErr: E -> R): (r: R)
      ensures IsOk() ==> r == onOk(Value())
      ensures IsErr() ==> r == onErr(Error())
    {
      if IsOk() then onOk(Value()) else onErr(Error())
    }
  }

  /** `ok(v)` is a success holding v and `err(e)` a failure holding e. */
  lemma ConstructorsTagged<T, E>(v: T, e: E)
    ensures Result<T, E>.Ok(v).IsOk() && Result<T, E>.Ok(v).Value() == v
    ensures Result<T, E>.Err(e).IsErr() && Result<T, E>.Err(e).Error() == e
  {
  }

  /** Mapping the identity changes nothing. */
  lemma MapIdentity<T, E>(r: Result<T, E>)
    ensures r.Map(x => x) == r
  {
  }

  /** Mapping twice is mapping the composition once. */
  lemma MapComposition<T, U, V, E>(r: Result<T, E>, f: T -> U, g: U -> V)
    ensures r.Map(f).Map(g) == r.Map(x => g(f(x)))
  {
  }

  /** Map then Match is Match with the mapped function folded into the success branch;
      on a failure the mapping function is irrelevant. */
  lemma MapThenMatch<T, U, R, E>(r: Result<T, E>, f: T -> U, onOk: U -> R, onErr: E -> R)
    ensures r.Map(f).Match(onOk, onErr) == r.Match(x => onOk(f(x)), onErr)
    ensures r.IsErr() ==> r.Map(f).Match(onOk, onErr) == onErr(r.Error())
  {
  }

  /** Map is AndThen with a step that cannot fail. */
  lemma MapIsAndThenOk<T, U, E>(r: Result<T, E>, f: T -> U)
    ensures r.Map(f) == r.AndThen(x => Ok(f(x)))
  {
  }

  /** The three monad laws of AndThen with Ok as unit. */
  lemma AndThenMonadLaws<T, U, V, E>(v: T, r: Result<T, E>, f: T -> Result<U, E>, g: U -> Result<V, E>)
    ensures Ok(v).AndThen(f) == f(v)
    ensures r.AndThen(x => Ok(x)) == r
    ensures r.AndThen(f).AndThen(g) == r.AndThen(x => f(x).AndThen(g))
  {
  }

  /** OrElse with the failure constructor is the identity; OrElse never touches a success. */
  lemma OrElseLaws<T, E>(r: Result<T, E>, v: T, f: E -> Result<T, E>)
    ensures r.OrElse(e => Err(e)) == r
    ensures Result<T, E>.Ok(v).OrElse(f) == Ok(v)
  {
  }

  /** Map acts on the success side and MapErr on the error side, so they commute. */
  lemma MapMapErrCommute<T, U, E, F>(r: Result<T, E>, f: T -> U, g: E -> F)
    ensures r.Map(f).MapErr(g) == r.MapErr(g).Map(f)
  {
  }

  /** ValueOr is Match with the identity on success and the constant default on failure. */
  lemma ValueOrIsMatch<T, E>(r: Result<T, E>, default: T)
    ensures r.ValueOr(default) == r.Match(x => x, e => default)
  {
  }
}
