/**
 * pydvl.utils.parallel.check: a second implementation of the same decision
 * as `fn_accepts_param_name`, with its own nested unrolling of partials.
 */
module ParallelCheck {
  import opened PyRuntime
  import opened Functional
  import SubsetSums

  /**
   * The state of `check_fn_accepts_parameter`: the set its nested
   * `check_partial` extends through `nonlocal`.
   */
  class PartialChecker {
    var argsSetByPartial: set<Value>

    constructor ()
      ensures argsSetByPartial == {}
    {
      argsSetByPartial := {};
    }

    /**
     * `check_partial`: walks down to the original function, collecting what
     * each layer binds; an unhashable positional value raises a TypeError,
     * and the set is then discarded, so only its bounds are stated.
     */
    method CheckPartial(g: Callable) returns (r: Result<Callable>)
      modifies this
      ensures r.Ok? <==> PositionalsHashable(g)
      ensures r.Err? ==> r.error.TypeError?
      ensures r.Ok? ==> r.value == Innermost(g)
      ensures r.Ok? ==> argsSetByPartial == old(argsSetByPartial) + BoundByPartials(g)
      ensures old(argsSetByPartial) <= argsSetByPartial <= old(argsSetByPartial) + BoundByPartials(g)
      decreases g
    {
      if g.Partial? {
        argsSetByPartial := argsSetByPartial + KeywordNames(g.keywords);
        if exists v :: v in g.args && !Hashable(v) {
          return Err(TypeError("unhashable type: 'list'"));
        }
        argsSetByPartial := argsSetByPartial + SubsetSums.Elems(g.args);
        r := CheckPartial(g.func);
      } else {
        r := Ok(g);
      }
    }
  }

  /**
   * `check_fn_accepts_parameter`: gives the same answer as
   * `fn_accepts_param_name` on every callable and every name, and raises
   * the same TypeError on an unhashable positional value.
   */
  method CheckFnAcceptsParameter(fn: Callable, paramName: string) returns (r: Result<bool>)
    ensures r.Ok? <==> PositionalsHashable(fn)
    ensures r.Err? ==> r.error.TypeError?
    ensures r.Ok? ==> (r.value <==> AcceptsParam(fn, paramName))
    ensures r.Ok? ==> (!r.value <==> (exists d: nat :: BindsAt(fn, d, Str(paramName)))
                                     || !(paramName in SignatureOf(Innermost(fn)).params
                                          || SignatureOf(Innermost(fn)).hasVarKw))
  {
    var checker := new PartialChecker();
    var originalFunction := checker.CheckPartial(fn);
    if originalFunction.Err? {
      return Err(originalFunction.error);
    }
    var sig := SignatureOf(originalFunction.value);
    BoundAtSomeDepth(fn, Str(paramName));
    if Str(paramName) in checker.argsSetByPartial {
      return Ok(false);
    }
    if paramName in sig.params {
      return Ok(true);
    }
    if sig.hasVarKw {
      return Ok(true);
    }
    return Ok(false);
  }
}
