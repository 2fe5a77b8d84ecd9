/**
 * pydvl.utils.functional: deciding whether a callable, possibly wrapped in
 * nested `functools.partial` objects, still accepts a keyword parameter.
 */
module Functional {
  import opened PyRuntime
  import SubsetSums

  /** The callable at the bottom of a chain of partials. */
  function Innermost(f: Callable): (r: Callable)
    ensures !r.Partial?
    ensures !f.Partial? ==> r == f
  {
    if f.Partial? then Innermost(f.func) else f
  }

  /** The keyword names a partial binds, as Python strings. */
  function KeywordNames(keywords: map<string, Value>): (r: set<Value>)
    ensures forall k :: Str(k) in r <==> k in keywords
    ensures forall v :: v in r ==> v.Str?
  {
    set k | k in keywords :: Str(k)
  }

  /** What one partial layer contributes: its keyword names and its positional values. */
  function LayerBound(g: Callable): (r: set<Value>)
    requires g.Partial?
    ensures forall k :: k in g.keywords ==> Str(k) in r
    ensures forall v :: v in g.args ==> v in r
  {
    KeywordNames(g.keywords) + SubsetSums.Elems(g.args)
  }

  /**
   * Everything the partial layers of `f` bind, outermost first: keyword
   * names and positional values mixed in one set, as the unrolling collects them.
   */
  function BoundByPartials(f: Callable): (r: set<Value>)
    ensures !f.Partial? ==> r == {}
    ensures f.Partial? ==> LayerBound(f) <= r
  {
    if f.Partial? then LayerBound(f) + BoundByPartials(f.func) else {}
  }

  /** `f` with its `d` outermost partial layers removed. */
  function Unwrap(f: Callable, d: nat): (r: Callable)
    ensures d == 0 ==> r == f
  {
    if d == 0 || !f.Partial? then f else Unwrap(f.func, d - 1)
  }

  /** The partial layer `d` levels down binds `v`. */
  predicate BindsAt(f: Callable, d: nat, v: Value)
  {
    Unwrap(f, d).Partial? && v in LayerBound(Unwrap(f, d))
  }

  /** A value is bound by the partials exactly when some layer, at any depth, binds it. */
  lemma {:induction false} BoundAtSomeDepth(f: Callable, v: Value)
    ensures v in BoundByPartials(f) <==> exists d: nat :: BindsAt(f, d, v)
  {
    if f.Partial? {
      if v in BoundByPartials(f) {
        if v in LayerBound(f) {
          assert BindsAt(f, 0, v);
        } else {
          BoundAtSomeDepth(f.func, v);
          var d: nat :| BindsAt(f.func, d, v);
          assert Unwrap(f, d + 1) == Unwrap(f.func, d);
          assert BindsAt(f, d + 1, v);
        }
      }
      if exists d: nat :: BindsAt(f, d, v) {
        var d: nat :| BindsAt(f, d, v);
        if d > 0 {
          assert Unwrap(f, d) == Unwrap(f.func, d - 1);
          assert BindsAt(f.func, d - 1, v);
          BoundAtSomeDepth(f.func, v);
        }
      }
    } else {
      forall d: nat ensures !BindsAt(f, d, v) {
        UnwrapPlain(f, d);
      }
    }
  }

  lemma {:induction false} UnwrapPlain(f: Callable, d: nat)
    requires !f.Partial?
    ensures Unwrap(f, d) == f
  {
  }

  /** Every positional value a partial layer binds is hashable, so `set.update` accepts it. */
  predicate PositionalsHashable(f: Callable)
  {
    f.Partial? ==> (forall v :: v in f.args ==> Hashable(v)) && PositionalsHashable(f.func)
  }

  /**
   * The state of `_unroll_partial_fn`: the set its nested recursive
   * function extends through `nonlocal`.
   */
  class PartialUnroller {
    var argsSetByPartial: set<Value>

    constructor ()
      ensures argsSetByPartial == {}
    {
      argsSetByPartial := {};
    }

    /**
     * `_rec_unroll_partial_function`: raises a TypeError when a layer binds
     * an unhashable positional value. The set is discarded with the
     * exception, so on that path only its bounds are stated.
     */
    method RecUnroll(g: Callable) returns (r: Result<Callable>)
      modifies this
      ensures r.Ok? <==> PositionalsHashable(g)
      ensures r.Err? ==> r.error.TypeError?
      ensures r.Ok? ==> r.value == Innermost(g)
      ensures r.Ok? ==> argsSetByPartial == old(argsSetByPartial) + BoundByPartials(g)
      ensures old(argsSetByPartial) <= argsSetByPartial <= old(argsSetByPartial) + BoundByPartials(g)
      decreases g
    {
      if g.Partial? {
        argsSetByPartial := argsSetByPartial + KeywordNames(g.keywords);
        if exists v :: v in g.args && !Hashable(v) {
          return Err(TypeError("unhashable type: 'list'"));
        }
        argsSetByPartial := argsSetByPartial + SubsetSums.Elems(g.args);
        r := RecUnroll(g.func);
      } else {
        r := Ok(g);
      }
    }
  }

  /**
   * `_unroll_partial_fn`: the innermost callable and everything the partials
   * bind, or the TypeError of an unhashable positional value.
   */
  method UnrollPartialFn(fn: Callable) returns (r: Result<(Callable, set<Value>)>)
    ensures r.Ok? <==> PositionalsHashable(fn)
    ensures r.Err? ==> r.error.TypeError?
    ensures r.Ok? ==> r.value.0 == Innermost(fn) && !r.value.0.Partial?
    ensures r.Ok? ==> r.value.1 == BoundByPartials(fn)
    ensures r.Ok? ==> forall v :: v in r.value.1 <==> exists d: nat :: BindsAt(fn, d, v)
  {
    var state := new PartialUnroller();
    var wrapped := state.RecUnroll(fn);
    if wrapped.Err? {
      return Err(wrapped.error);
    }
    r := Ok((wrapped.value, state.argsSetByPartial));
    forall v ensures v in state.argsSetByPartial <==> exists d: nat :: BindsAt(fn, d, v) {
      BoundAtSomeDepth(fn, v);
    }
  }

  /**
   * The decision `fn_accepts_param_name` makes: false when a partial layer
   * binds the name, as a keyword or as a positional value, otherwise true
   * when the innermost callable names the parameter or takes `**kwargs`.
   */
  predicate AcceptsParam(fn: Callable, paramName: string)
    ensures AcceptsParam(fn, paramName) ==> forall d: nat :: !BindsAt(fn, d, Str(paramName))
    ensures !fn.Partial? ==> (AcceptsParam(fn, paramName)
                              <==> paramName in SignatureOf(fn).params || SignatureOf(fn).hasVarKw)
  {
    BoundAtSomeDepth(fn, Str(paramName));
    var sig := SignatureOf(Innermost(fn));
    Str(paramName) !in BoundByPartials(fn) && (paramName in sig.params || sig.hasVarKw)
  }

  /** `fn_accepts_param_name` */
  method FnAcceptsParamName(fn: Callable, paramName: string) returns (r: Result<bool>)
    ensures r.Ok? <==> PositionalsHashable(fn)
    ensures r.Err? ==> r.error.TypeError?
    ensures r.Ok? ==> (r.value <==> AcceptsParam(fn, paramName))
  {
    var unrolled := UnrollPartialFn(fn);
    if unrolled.Err? {
      return Err(unrolled.error);
    }
    var (wrappedFn, argsSetByPartial) := unrolled.value;
    var sig := SignatureOf(wrappedFn);
    if Str(paramName) in argsSetByPartial {
      return Ok(false);
    }
    if paramName in sig.params {
      return Ok(true);
    }
    if sig.hasVarKw {
      return Ok(true);
    }
    return Ok(false);
  }

  /**
   * A keyword bound at any nesting depth makes the answer false, whatever
   * the innermost signature; so does a positional value equal to the name.
   */
  lemma BoundRejects(fn: Callable, d: nat, paramName: string)
    requires Unwrap(fn, d).Partial?
    requires paramName in Unwrap(fn, d).keywords || Str(paramName) in Unwrap(fn, d).args
    ensures !AcceptsParam(fn, paramName)
  {
    assert BindsAt(fn, d, Str(paramName));
  }

  /** The keyword names the partial layers bind. */
  function BoundKeywords(f: Callable): (r: set<string>)
    ensures forall k :: k in r ==> Str(k) in BoundByPartials(f)
    ensures f.Partial? ==> f.keywords.Keys <= r
  {
    if f.Partial? then f.keywords.Keys + BoundKeywords(f.func) else {}
  }

  /** How many positional arguments the partial layers bind altogether. */
  function PositionalCount(f: Callable): (r: nat)
    ensures !f.Partial? ==> r == 0
    ensures f.Partial? ==> r >= |f.args|
  {
    if f.Partial? then |f.args| + PositionalCount(f.func) else 0
  }

  /**
   * The parameters of a non-partial callable that n positional arguments
   * fill: the first n of a plain function's, none of a callable whose first
   * parameter is `*args`.
   */
  function FilledPositionally(inner: Callable, n: nat): (r: set<string>)
    requires !inner.Partial?
    ensures inner.Base? && n <= |inner.params| ==> forall p :: p in r <==> p in inner.params[..n]
    ensures inner.Base? ==> forall p :: p in r ==> p in inner.params
    ensures !inner.Base? ==> r == {}
  {
    if inner.Base? then SubsetSums.Elems(inner.params[..if n < |inner.params| then n else |inner.params|]) else {}
  }

  /**
   * The decision `fn_accepts_param_name` evidently intends: false when a
   * partial layer binds the name as a keyword or fills that parameter
   * positionally, otherwise true when the innermost callable names the
   * parameter or takes `**kwargs`. It hashes no argument, so it never raises.
   */
  predicate AcceptsParamFixed(fn: Callable, paramName: string)
  {
    var inner := Innermost(fn);
    var sig := SignatureOf(inner);
    && paramName !in BoundKeywords(fn)
    && paramName !in FilledPositionally(inner, PositionalCount(fn))
    && (paramName in sig.params || sig.hasVarKw)
  }

  /**
   * The positional values a partial binds are compared with the parameter
   * name instead of filling parameters: `partial(f, 5)` with `def f(seed)`
   * is said to accept `seed`, and passing it raises.
   */
  lemma PositionalValueQuirk()
    ensures var f := Base("f", ["seed"], false);
            var p := Partial(map[], [Int(5)], f);
            && AcceptsParam(p, "seed") && !AcceptsParamFixed(p, "seed")
            && Invoke(p, [], map["seed" := Int(0)], 0).Err?
  {
    var f := Base("f", ["seed"], false);
    var p := Partial(map[], [Int(5)], f);
    assert Str("seed") !in BoundByPartials(p);
    assert PositionalCount(p) == 1 && f.params[..1] == ["seed"];
    assert Invoke(p, [], map["seed" := Int(0)], 0) == Invoke(f, [Int(5)], map["seed" := Int(0)], 0) by {
      assert [Int(5)] + [] == [Int(5)];
      assert map[] + map["seed" := Int(0)] == map["seed" := Int(0)];
    }
  }

  /**
   * The other side of the same comparison: `partial(g, "seed")` with
   * `def g(x, seed)` is said not to accept `seed`, though the call succeeds.
   */
  lemma PositionalNameQuirk()
    ensures var g := Base("g", ["x", "seed"], false);
            var q := Partial(map[], [Str("seed")], g);
            && !AcceptsParam(q, "seed") && AcceptsParamFixed(q, "seed")
            && Invoke(q, [], map["seed" := Int(0)], 0) == Ok(Call("g", [Str("seed")], map["seed" := Int(0)]))
  {
    var g := Base("g", ["x", "seed"], false);
    var q := Partial(map[], [Str("seed")], g);
    assert PositionalCount(q) == 1 && g.params[..1] == ["x"];
    assert "seed" !in FilledPositionally(g, 1);
    assert Invoke(q, [], map["seed" := Int(0)], 0) == Invoke(g, [Str("seed")], map["seed" := Int(0)], 0) by {
      assert [Str("seed")] + [] == [Str("seed")];
      assert map[] + map["seed" := Int(0)] == map["seed" := Int(0)];
    }
  }

  /**
   * Collecting positional values into a set fails on an unhashable one:
   * `partial(g, [])` makes the decision raise, though no name is involved
   * and the corrected decision accepts `seed`.
   */
  lemma UnhashableQuirk()
    ensures var g := Base("g", ["x", "seed"], false);
            var r := Partial(map[], [List([])], g);
            !PositionalsHashable(r) && AcceptsParamFixed(r, "seed")
  {
    var g := Base("g", ["x", "seed"], false);
    var r := Partial(map[], [List([])], g);
    assert PositionalCount(r) == 1 && r.args[0] in r.args && !Hashable(r.args[0]);
    assert g.params[..1] == ["x"];
    assert "seed" !in FilledPositionally(g, 1);
  }

  /**
   * A keyword `paramName` passed to `fn` reaches its innermost plain
   * function as a parameter it takes: no layer binds it as a keyword, the
   * function names it or takes `**kwargs`, and neither the positional
   * arguments the layers bind nor `n` more passed at call time fill it.
   */
  predicate KeywordReaches(fn: Callable, paramName: string, n: nat)
  {
    && Innermost(fn).Base?
    && paramName !in BoundKeywords(fn)
    && (paramName in Innermost(fn).params || Innermost(fn).hasVarKw)
    && paramName !in FilledPositionally(Innermost(fn), PositionalCount(fn) + n)
  }

  /** A call succeeded and the function received `paramName` with value `v`. */
  predicate Receives(r: Result<Call>, paramName: string, v: Value)
  {
    r.Ok? && paramName in r.value.kwargs && r.value.kwargs[paramName] == v
  }

  /**
   * Soundness of a yes: when the keyword reaches the innermost plain
   * function, a successful call stays successful with the parameter added,
   * and the function receives it with its value.
   */
  lemma {:induction false} AcceptedIsReceived(fn: Callable, paramName: string, v: Value,
                                              args: seq<Value>, kwargs: map<string, Value>, depth: nat)
    requires KeywordReaches(fn, paramName, |args|)
    requires Invoke(fn, args, kwargs, depth).Ok?
    ensures Receives(Invoke(fn, args, kwargs[paramName := v], depth), paramName, v)
  {
    if fn.Partial? {
      ReachesThroughLayer(fn, paramName, args);
      MergeThenUpdate(fn.keywords, kwargs, paramName, v);
      AcceptedIsReceived(fn.func, paramName, v, fn.args + args, fn.keywords + kwargs, depth);
    } else {
      assert |args| <= |fn.params|;
      ReceivedByPlain(fn, paramName, v, args, kwargs, depth);
    }
  }

  /** Passing through one partial layer: its positional arguments join those of the call. */
  lemma ReachesThroughLayer(fn: Callable, paramName: string, args: seq<Value>)
    requires fn.Partial? && KeywordReaches(fn, paramName, |args|)
    ensures KeywordReaches(fn.func, paramName, |fn.args + args|) && paramName !in fn.keywords
  {
    assert PositionalCount(fn) + |args| == PositionalCount(fn.func) + |fn.args + args|;
  }

  /** Setting a call-time keyword commutes with merging the keywords a partial binds. */
  lemma MergeThenUpdate(bound: map<string, Value>, kwargs: map<string, Value>, k: string, v: Value)
    ensures bound + kwargs[k := v] == (bound + kwargs)[k := v]
  {
  }

  /** A plain function receives a parameter it takes, when no positional argument filled it. */
  lemma ReceivedByPlain(f: Callable, paramName: string, v: Value,
                        args: seq<Value>, kwargs: map<string, Value>, depth: nat)
    requires f.Base? && |args| <= |f.params| && paramName !in f.params[..|args|]
    requires paramName in f.params || f.hasVarKw
    requires Invoke(f, args, kwargs, depth).Ok?
    ensures Invoke(f, args, kwargs[paramName := v], depth) == Ok(Call(f.name, args, kwargs[paramName := v]))
  {
  }

  /**
   * The corrected decision is sound for keyword calls: when it says yes and a
   * call without positional arguments succeeds, the same call with the
   * parameter added succeeds and the function receives it.
   */
  lemma AcceptedByKeyword(fn: Callable, paramName: string, v: Value, kwargs: map<string, Value>, depth: nat)
    requires AcceptsParamFixed(fn, paramName) && Innermost(fn).Base?
    requires Invoke(fn, [], kwargs, depth).Ok?
    ensures Receives(Invoke(fn, [], kwargs[paramName := v], depth), paramName, v)
  {
    assert KeywordReaches(fn, paramName, 0);
    AcceptedIsReceived(fn, paramName, v, [], kwargs, depth);
  }

  /**
   * Completeness of a no that does not come from a partial: when the
   * innermost plain function neither names the parameter nor takes
   * `**kwargs`, passing it raises a TypeError.
   */
  lemma {:induction false} RejectedRaises(fn: Callable, paramName: string, v: Value,
                                          args: seq<Value>, kwargs: map<string, Value>, depth: nat)
    requires Innermost(fn).Base?
    requires Str(paramName) !in BoundByPartials(fn) && !AcceptsParam(fn, paramName)
    ensures Invoke(fn, args, kwargs[paramName := v], depth).Err?
    ensures Invoke(fn, args, kwargs[paramName := v], depth).error.TypeError?
  {
    if fn.Partial? {
      MergeThenUpdate(fn.keywords, kwargs, paramName, v);
      RejectedRaises(fn.func, paramName, v, fn.args + args, fn.keywords + kwargs, depth);
    }
  }
}
