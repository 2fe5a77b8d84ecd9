/**
 * The slice of Python's object and call model that the argument-adaptation
 * helpers rely on: values, callables (plain functions, `functools.partial`
 * objects, `call_fun_remove_arg`), the exceptions they raise, and what a
 * call does.
 *
 * A plain function is abstract: calling it records the arguments it
 * received. Its named parameters are positional-or-keyword, in order;
 * binding checks that the positional arguments fit, that no keyword names a
 * parameter already filled positionally, and that every keyword is named
 * unless the function takes `**kwargs`.
 */
module PyRuntime {

  /** The exceptions raised by the modelled code. */
  datatype Error =
    | TypeError(message: string)
    | ValueError(message: string)
    | ZeroDivisionError
    | RecursionError

  datatype Result<T> = Ok(value: T) | Err(error: Error)

  datatype Option<T> = None | Some(value: T)

  /** numpy's `SeedSequence(entropy)`; entropy `None` stands for fresh entropy from the OS. */
  datatype SeedSequence = SeedSequence(entropy: Value)

  /** A numpy bit generator, which keeps the seed sequence it was seeded from. */
  datatype BitGenerator = BitGenerator(seedSeq: SeedSequence)

  /** A numpy `Generator` wrapping a bit generator. */
  datatype Generator = Generator(bitGenerator: BitGenerator)

  /** The Python values the helpers pass around. */
  datatype Value =
    | NoneValue
    | Str(s: string)
    | Int(i: int)
    | Fn(f: Callable)
    | Gen(g: Generator)
    | SeedSeq(seedSeq: SeedSequence)
    | List(items: seq<Value>)

  /** Whether a value can be a set member or a dict key: every modelled value but a list. */
  predicate Hashable(v: Value)
  {
    !v.List?
  }

  /** Callables. */
  datatype Callable =
      /** A function with positional-or-keyword parameters `params`, taking `**kwargs` when `hasVarKw`. */
    | Base(name: string, params: seq<string>, hasVarKw: bool)
      /** `functools.partial(func, *args, **keywords)` */
    | Partial(keywords: map<string, Value>, args: seq<Value>, func: Callable)
      /** `call_fun_remove_arg(*args, fun, arg, **kwargs)` from pydvl.utils.types */
    | CallFunRemoveArgFn
      /** A closure `(*args, **kwargs) -> fun(*args, **kwargs without arg)` */
    | IgnoreArg(fun: Callable, arg: string)

  /** What a plain function received when it was called. */
  datatype Call = Call(name: string, args: seq<Value>, kwargs: map<string, Value>)

  /** The part of `inspect.signature` the helpers look at: the parameter names in order. */
  datatype Signature = Signature(params: seq<string>, hasVarKw: bool)

  /** The signature of a callable that is not a partial. */
  function SignatureOf(f: Callable): (r: Signature)
    requires !f.Partial?
    ensures f.Base? ==> r == Signature(f.params, f.hasVarKw)
    ensures !f.Base? ==> r.hasVarKw
  {
    match f
    case Base(_, params, hasVarKw) => Signature(params, hasVarKw)
    case CallFunRemoveArgFn => Signature(["args", "fun", "arg", "kwargs"], true)
    case IgnoreArg(_, _) => Signature(["args", "kwargs"], true)
  }

  /**
   * `del kwargs[arg]`, where a missing key (a KeyError) is ignored. Only a
   * string naming a key removes anything; an unhashable `arg` raises a
   * TypeError, which is not caught.
   */
  function Without(kwargs: map<string, Value>, arg: Value): (r: Result<map<string, Value>>)
    ensures r.Err? <==> !Hashable(arg)
    ensures r.Err? ==> r.error.TypeError?
    ensures r.Ok? ==> forall k :: k in r.value <==> k in kwargs && arg != Str(k)
    ensures r.Ok? ==> forall k :: k in r.value ==> r.value[k] == kwargs[k]
  {
    if !Hashable(arg) then Err(TypeError("unhashable type: 'list'"))
    else if arg.Str? then Ok(kwargs - {arg.s})
    else Ok(kwargs)
  }

  /**
   * Calling `f(*args, **kwargs)`. `depth` is the number of Python frames
   * still available: `call_fun_remove_arg` calls a function taken from its
   * keywords, which need not be smaller than itself, and runs out of frames
   * with a RecursionError as Python does.
   */
  function Invoke(f: Callable, args: seq<Value>, kwargs: map<string, Value>, depth: nat): (r: Result<Call>)
    ensures r.Err? ==> r.error.TypeError? || r.error.RecursionError?
    ensures f.Base? ==> (r.Ok? <==> Binds(f.params, f.hasVarKw, |args|, kwargs))
    ensures f.Base? && r.Ok? ==> r.value == Call(f.name, args, kwargs)
    decreases depth, f
  {
    match f
    case Base(name, params, hasVarKw) =>
      if |args| > |params| then Err(TypeError("takes fewer positional arguments than were given"))
      else if exists k :: k in kwargs && k in params[..|args|] then Err(TypeError("got multiple values for argument"))
      else if !hasVarKw && exists k :: k in kwargs && k !in params then Err(TypeError("got an unexpected keyword argument"))
      else Ok(Call(name, args, kwargs))
    case Partial(keywords, pargs, func) =>
      Invoke(func, pargs + args, keywords + kwargs, depth)
    case CallFunRemoveArgFn =>
      if "fun" !in kwargs || "arg" !in kwargs then Err(TypeError("missing a required keyword-only argument"))
      else
        var rest := Without(kwargs - {"fun", "arg"}, kwargs["arg"]);
        if rest.Err? then Err(rest.error)
        else if !kwargs["fun"].Fn? then Err(TypeError("object is not callable"))
        else if depth == 0 then Err(RecursionError)
        else Invoke(kwargs["fun"].f, args, rest.value, depth - 1)
    case IgnoreArg(fun, arg) =>
      Invoke(fun, args, kwargs - {arg}, depth)
  }

  /**
   * A plain function with parameters `params` can be called with `n`
   * positional arguments and the keywords `kwargs`: the positional ones fit,
   * no keyword names a parameter they filled, and every keyword is named
   * unless the function takes `**kwargs`.
   */
  predicate Binds(params: seq<string>, hasVarKw: bool, n: nat, kwargs: map<string, Value>)
  {
    n <= |params| && forall k :: k in kwargs ==> k !in params[..n] && (k in params || hasVarKw)
  }

  /** Keywords given at call time override those bound by a partial; positional ones are appended. */
  lemma {:induction false} InvokePartialNested(k1: map<string, Value>, a1: seq<Value>, k2: map<string, Value>, a2: seq<Value>,
                                               g: Callable, args: seq<Value>, kwargs: map<string, Value>, depth: nat)
    ensures Invoke(Partial(k1, a1, Partial(k2, a2, g)), args, kwargs, depth)
         == Invoke(Partial(k2 + k1, a2 + a1, g), args, kwargs, depth)
  {
    assert a2 + (a1 + args) == (a2 + a1) + args;
    assert k2 + (k1 + kwargs) == (k2 + k1) + kwargs;
  }
}
