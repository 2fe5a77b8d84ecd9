/**
 * pydvl.utils.types: adapting callables to an extra keyword argument, the
 * factory-only metaclass, seed normalisation and repeated seeded calls.
 */
module Types {
  import opened PyRuntime
  import opened Functional
  import SubsetSums

  /**
   * `call_fun_remove_arg(*args, fun, arg, **kwargs)`: removes `arg` from the
   * keywords (a missing key is ignored, an unhashable one raises) and calls
   * `fun` with the rest. Python binds the keywords `fun` and `arg` to the
   * named parameters, so `kwargs` never holds them. `depth` is the number of
   * frames left for `fun`.
   */
  method CallFunRemoveArg(args: seq<Value>, fun: Value, arg: Value, kwargs: map<string, Value>, depth: nat)
    returns (r: Result<Call>)
    requires "fun" !in kwargs && "arg" !in kwargs
    ensures !Hashable(arg) ==> r.Err? && r.error.TypeError?
    ensures Hashable(arg) && !fun.Fn? ==> r.Err? && r.error.TypeError?
    ensures Hashable(arg) && fun.Fn? ==> r == Invoke(fun.f, args, Without(kwargs, arg).value, depth)
    ensures r == Invoke(CallFunRemoveArgFn, args, kwargs["fun" := fun]["arg" := arg], depth + 1)
    ensures fun.Fn? && fun.f.Base? && r.Ok? ==>
              forall k :: k in r.value.kwargs <==> k in kwargs && arg != Str(k)
    ensures fun.Fn? && fun.f.Base? && r.Ok? ==>
              forall k :: k in r.value.kwargs ==> r.value.kwargs[k] == kwargs[k]
  {
    assert kwargs["fun" := fun]["arg" := arg] - {"fun", "arg"} == kwargs;
    if !Hashable(arg) {
      return Err(TypeError("unhashable type: 'list'"));
    }
    var remaining := kwargs;
    if arg.Str? && arg.s in remaining {
      remaining := remaining - {arg.s};
    }
    assert remaining == Without(kwargs, arg).value;
    if !fun.Fn? {
      return Err(TypeError("object is not callable"));
    }
    r := Invoke(fun.f, args, remaining, depth);
  }

  /**
   * `maybe_add_argument` as written: `fun` itself when it accepts `newArg`,
   * otherwise `partial(call_fun_remove_arg, fun=fun, arg=newArg)`; the
   * TypeError of `fn_accepts_param_name` on an unhashable positional value
   * propagates.
   */
  function MaybeAddArgument(fun: Callable, newArg: string): (r: Result<Callable>)
    ensures r.Err? <==> !PositionalsHashable(fun)
    ensures r.Err? ==> r.error.TypeError?
    ensures r.Ok? && AcceptsParam(fun, newArg) ==> r.value == fun
    ensures r.Ok? && !AcceptsParam(fun, newArg) ==> r.value.Partial? && r.value.func == CallFunRemoveArgFn
  {
    if !PositionalsHashable(fun) then Err(TypeError("unhashable type: 'list'"))
    else if AcceptsParam(fun, newArg) then Ok(fun)
    else Ok(Partial(map["fun" := Fn(fun), "arg" := Str(newArg)], [], CallFunRemoveArgFn))
  }

  /** The result accepts the new argument, unless its name is one the wrapper itself binds. */
  lemma MaybeAddArgumentAccepts(fun: Callable, newArg: string)
    requires PositionalsHashable(fun)
    ensures newArg != "fun" && newArg != "arg" ==> AcceptsParam(MaybeAddArgument(fun, newArg).value, newArg)
    ensures !AcceptsParam(fun, newArg) && (newArg == "fun" || newArg == "arg")
            ==> !AcceptsParam(MaybeAddArgument(fun, newArg).value, newArg)
  {
    if !AcceptsParam(fun, newArg) {
      var w := Partial(map["fun" := Fn(fun), "arg" := Str(newArg)], [], CallFunRemoveArgFn);
      assert MaybeAddArgument(fun, newArg).value == w;
      assert Innermost(w) == CallFunRemoveArgFn;
      assert BoundByPartials(w) == KeywordNames(w.keywords) + SubsetSums.Elems(w.args);
      assert SubsetSums.Elems(w.args) == {};
      assert Str(newArg) in BoundByPartials(w) <==> newArg in w.keywords;
    }
  }

  /**
   * The wrapper ignores the new argument: called with keywords that do not
   * use the names `fun` and `arg`, it calls `fun` with the same arguments
   * minus `newArg`, one frame deeper.
   */
  lemma MaybeAddArgumentIgnores(fun: Callable, newArg: string, args: seq<Value>, kwargs: map<string, Value>, depth: nat)
    requires PositionalsHashable(fun) && !AcceptsParam(fun, newArg)
    requires "fun" !in kwargs && "arg" !in kwargs
    ensures Invoke(MaybeAddArgument(fun, newArg).value, args, kwargs, depth + 1) == Invoke(fun, args, kwargs - {newArg}, depth)
  {
    var bound := map["fun" := Fn(fun), "arg" := Str(newArg)];
    assert [] + args == args;
    assert (bound + kwargs) - {"fun", "arg"} == kwargs;
    assert Without(kwargs, Str(newArg)).value == kwargs - {newArg};
  }

  /**
   * Calling the wrapper with a keyword named `arg` replaces the name to
   * remove: the new argument reaches `fun` and the caller's `arg` does not.
   */
  lemma MaybeAddArgumentHijacksArg()
    ensures var f := Base("f", ["arg"], false);
            var kwargs := map["arg" := Int(3), "seed" := Int(0)];
            && !AcceptsParam(f, "seed")
            && Invoke(f, [], kwargs - {"seed"}, 0) == Ok(Call("f", [], map["arg" := Int(3)]))
            && MaybeAddArgument(f, "seed").Ok?
            && Invoke(MaybeAddArgument(f, "seed").value, [], kwargs, 1).Err?
  {
    var f := Base("f", ["arg"], false);
    var kwargs := map["arg" := Int(3), "seed" := Int(0)];
    assert kwargs - {"seed"} == map["arg" := Int(3)];
    var merged := map["fun" := Fn(f), "arg" := Str("seed")] + kwargs;
    assert merged - {"fun", "arg"} == map["seed" := Int(0)];
    assert merged["arg"] == Int(3);
    assert Without(map["seed" := Int(0)], Int(3)) == Ok(map["seed" := Int(0)]);
    assert "seed" in map["seed" := Int(0)] && "seed" !in f.params;
  }

  /**
   * `maybe_add_argument` as its documentation describes it: `fun` itself
   * when it accepts `newArg` (decided by the corrected rule, which never
   * raises), otherwise a closure taking `*args, **kwargs` that drops
   * `newArg` and passes everything else through.
   */
  function MaybeAddArgumentFixed(fun: Callable, newArg: string): (r: Callable)
    ensures AcceptsParamFixed(r, newArg)
    ensures AcceptsParamFixed(fun, newArg) ==> r == fun
  {
    if AcceptsParamFixed(fun, newArg) then fun else IgnoreArg(fun, newArg)
  }

  /** The corrected wrapper ignores the new argument whatever other keywords the caller uses. */
  lemma MaybeAddArgumentFixedIgnores(fun: Callable, newArg: string, args: seq<Value>, kwargs: map<string, Value>, depth: nat)
    requires !AcceptsParamFixed(fun, newArg)
    ensures Invoke(MaybeAddArgumentFixed(fun, newArg), args, kwargs, depth) == Invoke(fun, args, kwargs - {newArg}, depth)
  {
  }

  /** On the input that defeats the written wrapper, the corrected one passes `arg` through. */
  lemma MaybeAddArgumentFixedKeepsArg()
    ensures var f := Base("f", ["arg"], false);
            Invoke(MaybeAddArgumentFixed(f, "seed"), [], map["arg" := Int(3), "seed" := Int(0)], 0)
            == Ok(Call("f", [], map["arg" := Int(3)]))
  {
    var f := Base("f", ["arg"], false);
    assert map["arg" := Int(3), "seed" := Int(0)] - {"seed"} == map["arg" := Int(3)];
  }

  /** A class as the metaclass sees it: `__module__` and `__qualname__`. */
  datatype ClassRef = ClassRef(moduleName: string, qualname: string)

  /**
   * A class under `NoPublicConstructor`: its name, the abstract methods it
   * leaves unimplemented (`ABCMeta` refuses to instantiate it then), and its
   * `__init__`, which either accepts the arguments or raises.
   */
  datatype ClassDef = ClassDef(ref: ClassRef, abstractMethods: set<string>,
                               init: (seq<Value>, map<string, Value>) -> Option<Error>)

  /** An object built by a class's own constructor. */
  datatype Instance = Instance(cls: ClassRef, args: seq<Value>, kwargs: map<string, Value>)

  /** `NoPublicConstructor.__call__`: instantiating the class directly always raises. */
  function DirectInstantiation(cls: ClassDef, args: seq<Value>, kwargs: map<string, Value>): (r: Result<Instance>)
    ensures r.Err? && r.error.TypeError?
    ensures cls.ref.moduleName + "." + cls.ref.qualname <= r.error.message
  {
    Err(TypeError(cls.ref.moduleName + "." + cls.ref.qualname + " cannot be initialized directly. "
                  + "Use the proper factory instead."))
  }

  /**
   * `NoPublicConstructor.create`: `type.__call__` through `ABCMeta`, which
   * refuses a class with abstract methods and otherwise runs `__init__`.
   */
  function Create(cls: ClassDef, args: seq<Value>, kwargs: map<string, Value>): (r: Result<Instance>)
    ensures r.Ok? <==> cls.abstractMethods == {} && cls.init(args, kwargs).None?
    ensures cls.abstractMethods != {} ==> r.Err? && r.error.TypeError?
    ensures cls.abstractMethods == {} && cls.init(args, kwargs).Some? ==> r == Err(cls.init(args, kwargs).value)
    ensures r.Ok? ==> r.value == Instance(cls.ref, args, kwargs)
  {
    if cls.abstractMethods != {} then Err(TypeError("Can't instantiate abstract class " + cls.ref.qualname))
    else match cls.init(args, kwargs)
      case Some(e) => Err(e)
      case None => Ok(Instance(cls.ref, args, kwargs))
  }

  /**
   * The factory is the only way in: the direct call raises the same TypeError
   * whatever the class's constructor and abstract methods, while `create`
   * builds the instance exactly when the constructor accepts the arguments.
   */
  lemma FactoryOnly(cls: ClassDef, other: ClassDef, args: seq<Value>, kwargs: map<string, Value>)
    requires other.ref == cls.ref
    ensures DirectInstantiation(cls, args, kwargs) == DirectInstantiation(other, args, kwargs)
    ensures DirectInstantiation(cls, args, kwargs).Err?
    ensures cls.abstractMethods == {} && cls.init(args, kwargs).None?
            ==> Create(cls, args, kwargs) == Ok(Instance(cls.ref, args, kwargs))
  {
  }

  /**
   * `ensure_seed_sequence`: a seed sequence is returned as is, a generator
   * gives the seed sequence of its bit generator, anything else (an int or
   * None) becomes the entropy of a new seed sequence.
   */
  function EnsureSeedSequence(seed: Value): (r: SeedSequence)
    ensures seed.SeedSeq? ==> r == seed.seedSeq
    ensures seed.Gen? ==> r == seed.g.bitGenerator.seedSeq
    ensures !seed.SeedSeq? && !seed.Gen? ==> r.entropy == seed
  {
    match seed
    case SeedSeq(s) => s
    case Gen(g) => g.bitGenerator.seedSeq
    case _ => SeedSequence(seed)
  }

  /** Normalising a seed twice gives the same seed sequence as normalising it once. */
  lemma EnsureSeedSequenceIdempotent(seed: Value)
    ensures EnsureSeedSequence(SeedSeq(EnsureSeedSequence(seed))) == EnsureSeedSequence(seed)
  {
  }

  /** One call of `call_fn_multiple_seeds`: `fn(*args, **kwargs, seed=seed)`. */
  function SeededCall(fn: Callable, args: seq<Value>, kwargs: map<string, Value>, seed: Value, depth: nat): (r: Result<Call>)
    ensures "seed" in kwargs ==> r.Err? && r.error.TypeError?
    ensures "seed" !in kwargs ==> r == Invoke(fn, args, kwargs["seed" := seed], depth)
  {
    if "seed" in kwargs then Err(TypeError("got multiple values for keyword argument 'seed'"))
    else Invoke(fn, args, kwargs["seed" := seed], depth)
  }

  /**
   * `call_fn_multiple_seeds`: calls `fn` once per seed, in order, each time
   * with the same arguments and `seed=` that seed; the first call that
   * raises ends the whole tuple with its exception.
   */
  function CallFnMultipleSeeds(fn: Callable, args: seq<Value>, seeds: seq<Value>, kwargs: map<string, Value>, depth: nat)
    : (r: Result<seq<Call>>)
    ensures r.Ok? <==> forall i :: 0 <= i < |seeds| ==> SeededCall(fn, args, kwargs, seeds[i], depth).Ok?
    ensures r.Ok? ==> |r.value| == |seeds|
    ensures r.Ok? ==> forall i :: 0 <= i < |seeds| ==> r.value[i] == SeededCall(fn, args, kwargs, seeds[i], depth).value
    ensures r.Err? ==> exists i :: 0 <= i < |seeds| && SeededCall(fn, args, kwargs, seeds[i], depth) == Err(r.error)
                                   && forall j :: 0 <= j < i ==> SeededCall(fn, args, kwargs, seeds[j], depth).Ok?
  {
    if |seeds| == 0 then Ok([])
    else
      var first := SeededCall(fn, args, kwargs, seeds[0], depth);
      if first.Err? then Err(first.error)
      else
        var rest := CallFnMultipleSeeds(fn, args, seeds[1..], kwargs, depth);
        if rest.Err? then rest else Ok([first.value] + rest.value)
  }

  /**
   * A plain function that names `seed` receives, on call number `i`, the
   * `i`-th seed and otherwise the same keywords each time.
   */
  lemma {:induction false} EachCallGetsItsSeed(name: string, params: seq<string>, args: seq<Value>, seeds: seq<Value>,
                                               kwargs: map<string, Value>, depth: nat)
    requires |args| <= |params| && "seed" in params[|args|..] && "seed" !in params[..|args|] && "seed" !in kwargs
    requires forall k :: k in kwargs ==> k in params[|args|..] && k !in params[..|args|]
    ensures CallFnMultipleSeeds(Base(name, params, false), args, seeds, kwargs, depth).Ok?
    ensures var calls := CallFnMultipleSeeds(Base(name, params, false), args, seeds, kwargs, depth).value;
            forall i :: 0 <= i < |seeds| ==> calls[i] == Call(name, args, kwargs["seed" := seeds[i]])
  {
    forall i | 0 <= i < |seeds|
      ensures SeededCall(Base(name, params, false), args, kwargs, seeds[i], depth) == Ok(Call(name, args, kwargs["seed" := seeds[i]]))
    {
      assert params == params[..|args|] + params[|args|..];
      assert forall k :: k in kwargs["seed" := seeds[i]] ==> k !in params[..|args|] && k in params;
    }
  }
}
