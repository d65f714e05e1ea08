/**
 * `LazyLoadedValue`: a value computed by a supplier on the first `get` and remembered.
 * The supplier is not modelled as code: each `get` is given what calling it would
 * produce (a value, or the exception it throws), and a ghost counter records how often
 * it was called.
 */
module LazyLoadedValue {
  import opened Wrappers

  /** An exception the supplier throws, passed on by `get`. */
  datatype Thrown = Thrown(message: string)

  class LazyLoadedValue<T> {
    /** Whether the supplier is still set (`factory != null`). */
    var factory: bool
    /** The stored value; `None` is the initial `null`. */
    var value: Option<T>
    /** The number of times the supplier was called. */
    ghost var invocations: nat

    /** `LazyLoadedValue(supplier)`: `hasSupplier` says whether the supplier passed is non-null. */
    constructor (hasSupplier: bool)
      ensures factory == hasSupplier && value == None && invocations == 0
    {
      factory := hasSupplier;
      value := None;
      invocations := 0;
    }

    /**
     * `get`: while the supplier is set, call it; a value is stored and the supplier
     * dropped, a throw leaves both as they were and propagates. Once the supplier is
     * gone, the stored value is returned and nothing is called.
     */
    method Get(supplied: Result<T, Thrown>) returns (r: Result<Option<T>, Thrown>)
      modifies this
      ensures invocations == old(invocations) + if old(factory) then 1 else 0
      ensures !old(factory) ==> r == Success(old(value)) && !factory && value == old(value)
      ensures old(factory) && supplied.Success? ==> !factory && value == Some(supplied.value) && r == Success(value)
      ensures old(factory) && supplied.Failure? ==> factory && value == old(value) && r == Failure(supplied.error)
    {
      if factory {
        invocations := invocations + 1;
        if supplied.Failure? {
          return Failure(supplied.error);
        }
        value := Some(supplied.value);
        factory := false;
      }
      r := Success(value);
    }
  }

  /**
   * Once a `get` has succeeded, every later `get` returns the same value and never calls
   * the supplier again, whatever it would produce.
   */
  method GetThenGetAgain<T>(lazy: LazyLoadedValue<T>, first: Result<T, Thrown>, second: Result<T, Thrown>)
    returns (a: Result<Option<T>, Thrown>, b: Result<Option<T>, Thrown>)
    modifies lazy
    ensures a.Success? ==> b == a && lazy.invocations == old(lazy.invocations) + (if old(lazy.factory) then 1 else 0)
  {
    a := lazy.Get(first);
    b := lazy.Get(second);
  }

  /** A `get` whose supplier throws leaves the supplier set, so the next `get` calls it again. */
  method ThrowThenRetry<T>(lazy: LazyLoadedValue<T>, message: string, v: T)
    returns (a: Result<Option<T>, Thrown>, b: Result<Option<T>, Thrown>)
    requires lazy.factory
    modifies lazy
    ensures a == Failure(Thrown(message)) && b == Success(Some(v))
    ensures lazy.invocations == old(lazy.invocations) + 2 && !lazy.factory && lazy.value == Some(v)
  {
    a := lazy.Get(Failure(Thrown(message)));
    b := lazy.Get(Success(v));
  }
}
