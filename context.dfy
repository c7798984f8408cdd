/**
 * `createContext`, its `Provider` and `useContext` of react/react.ts. A
 * context object holds a current value, the default it was created with and
 * a flag recording that a Provider has run; the Provider writes the first
 * and the last of these in place and hands its children back unchanged.
 */
module Context {
  import opened Wrappers
  import opened Elements

  /** The value a Provider installs: the one it is given, or the default when given `undefined`. */
  function Provided<T>(value: Option<T>, defaultValue: T): (r: T)
    ensures value.Some? ==> r == value.value
    ensures value.None? ==> r == defaultValue
  {
    match value
    case Some(x) => x
    case None => defaultValue
  }

  /** The object `createContext(defaultValue)` returns. */
  class Context<T> {
    var currentValue: T
    const defaultValue: T
    var calledByProvider: bool

    /** `createContext(defaultValue)`: the current value starts as the default, and no Provider has run. */
    constructor (defaultValue: T)
      ensures this.defaultValue == defaultValue
      ensures currentValue == defaultValue && !calledByProvider
    {
      this.defaultValue := defaultValue;
      currentValue := defaultValue;
      calledByProvider := false;
    }

    /** `Provider({ value, children })`. */
    method Provider(value: Option<T>, children: Value) returns (r: Value)
      modifies this
      ensures currentValue == Provided(value, defaultValue)
      ensures calledByProvider
      ensures r == children
    {
      currentValue := Provided(value, defaultValue);
      calledByProvider := true;
      r := children;
    }
  }

  /** `useContext(context)`: the value the context currently holds. */
  function UseContext<T>(context: Context<T>): T
    reads context
  {
    context.currentValue
  }

  /**
   * A consumer reads the default before any Provider runs; after a Provider
   * runs it reads the value that Provider was given, or the default again
   * when it was given none; a later Provider overrides an earlier one.
   */
  method ProvideThenUse<T>(defaultValue: T, first: Option<T>, second: Option<T>, children: Value)
    returns (before: T, afterFirst: T, afterSecond: T)
    ensures before == defaultValue
    ensures afterFirst == (if first.Some? then first.value else defaultValue)
    ensures afterSecond == (if second.Some? then second.value else defaultValue)
  {
    var context := new Context(defaultValue);
    before := UseContext(context);
    var shown := context.Provider(first, children);
    assert shown == children;
    afterFirst := UseContext(context);
    shown := context.Provider(second, children);
    afterSecond := UseContext(context);
  }
}
